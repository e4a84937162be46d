/** The JA3 string: five comma-separated lists of decimal codepoints without the GREASE
    values of RFC 8701. */
module Ja3 {
  import opened Wire
  import opened Text
  import opened Handshakes

  /** High byte equal to low byte, low nibble ten. */
  predicate IsGreaseCodepoint(v: u16) {
    v / 0x100 == v % 0x100 && v % 0x10 == 0xa
  }

  /** The pattern has exactly the sixteen codepoints 0x0a0a, 0x1a1a, up to 0xfafa. */
  lemma GreaseIff(v: u16)
    ensures IsGreaseCodepoint(v) <==> exists k | 0 <= k < 16 :: v == 0x0a0a + 0x1010 * k
  {
    if IsGreaseCodepoint(v) {
      var k := v % 0x100 / 0x10;
      assert v % 0x100 == 0x10 * k + 0xa;
      assert v == 0x101 * (v % 0x100);
      assert v == 0x0a0a + 0x1010 * k;
    }
  }

  function Filtered(xs: seq<u16>): seq<u16> {
    if xs == [] then []
    else (if IsGreaseCodepoint(xs[0]) then [] else [xs[0]]) + Filtered(xs[1..])
  }

  lemma {:induction false} FilteredConcat(xs: seq<u16>, ys: seq<u16>)
    ensures Filtered(xs + ys) == Filtered(xs) + Filtered(ys)
  {
    if xs == [] {
      assert xs + ys == ys;
    } else {
      FilteredConcat(xs[1..], ys);
      assert (xs + ys)[1..] == xs[1..] + ys;
      var kept := if IsGreaseCodepoint(xs[0]) then [] else [xs[0]];
      assert Filtered(xs + ys) == kept + Filtered(xs[1..] + ys);
      Assoc(kept, Filtered(xs[1..]), Filtered(ys));
    }
  }

  lemma FilteredOne(x: u16)
    ensures Filtered([x]) == if IsGreaseCodepoint(x) then [] else [x]
  {
  }

  // ── Writers ──────────────────────────────────────────────────────────────

  /** Appending one number to a printed list. */
  lemma JoinDecimalAppend(xs: seq<nat>, x: nat, sep: char)
    ensures JoinDecimal(xs + [x], sep) == JoinDecimal(xs, sep) + (if xs == [] then [] else [sep]) + Decimal(x)
  {
    assert Decimals(xs + [x]) == Decimals(xs) + [Decimal(x)];
    JoinAppend(Decimals(xs), Decimal(x), sep);
    if xs != [] {
      Assoc(JoinDecimal(xs, sep), [sep], Decimal(x));
    }
  }

  method WriteU16List(out: string, values: seq<u16>, filterGrease: bool) returns (r: string)
    ensures r == out + JoinDecimal(if filterGrease then Filtered(values) else values, '-')
  {
    hide JoinDecimal;
    r := out;
    var first := true;
    ghost var kept: seq<u16> := [];
    NothingJoined('-');
    assert out + [] == out;
    for i := 0 to |values|
      invariant r == out + JoinDecimal(kept, '-')
      invariant first <==> kept == []
      invariant kept == if filterGrease then Filtered(values[..i]) else values[..i]
    {
      var v := values[i];
      assert values[..i + 1] == values[..i] + [v];
      FilteredConcat(values[..i], [v]);
      FilteredOne(v);
      if filterGrease && IsGreaseCodepoint(v) {
        assert kept + [] == kept;
        continue;
      }
      JoinDecimalAppend(kept, v, '-');
      AppendOne(out, JoinDecimal(kept, '-'), if first then [] else ['-'], Decimal(v));
      if !first {
        r := r + ['-'];
      }
      r := r + Decimal(v);
      first := false;
      kept := kept + [v];
    }
    assert values[..|values|] == values;
  }

  lemma NothingJoined(sep: char)
    ensures JoinDecimal([], sep) == []
  {
  }

  lemma AppendOne(out: string, joined: string, sep: string, last: string)
    ensures out + (joined + sep + last) == out + joined + sep + last
    ensures out + joined + [] == out + joined
  {
  }

  method WriteU8List(out: string, values: bytes) returns (r: string)
    ensures r == out + JoinDecimal(values, '-')
  {
    hide JoinDecimal;
    r := out;
    var first := true;
    NothingJoined('-');
    assert out + [] == out;
    for i := 0 to |values|
      invariant r == out + JoinDecimal(values[..i], '-')
      invariant first <==> i == 0
    {
      var v := values[i];
      assert values[..i + 1] == values[..i] + [v];
      JoinDecimalAppend(values[..i], v, '-');
      AppendOne(out, JoinDecimal(values[..i], '-'), if first then [] else ['-'], Decimal(v));
      if !first {
        r := r + ['-'];
      }
      r := r + Decimal(v);
      first := false;
    }
    assert values[..|values|] == values;
  }

  // ── The string and its fields ────────────────────────────────────────────

  /** What a JA3 string says; an absent list says the same as an empty one. */
  datatype Fields = Fields(ciphers: seq<nat>, extensions: seq<nat>, groups: seq<nat>, formats: seq<nat>)

  function OrEmpty<T>(xs: Option<seq<T>>): seq<T> {
    if xs.Some? then xs.value else []
  }

  function FieldsOf(m: ClientHelloMetadata): Fields {
    Fields(
      Filtered(m.cipherSuites),
      Filtered(m.extensionOrder),
      Filtered(OrEmpty(m.supportedGroups)),
      OrEmpty(m.ecPointFormats))
  }

  function Pieces(f: Fields): seq<string> {
    [Decimal(TLS_LEGACY_VERSION), JoinDecimal(f.ciphers, '-'), JoinDecimal(f.extensions, '-'),
     JoinDecimal(f.groups, '-'), JoinDecimal(f.formats, '-')]
  }

  function Raw(m: ClientHelloMetadata): string {
    Join(Pieces(FieldsOf(m)), ',')
  }

  method ComputeJa3(meta: ClientHelloMetadata, md5: string -> string) returns (raw: string, digest: string)
    ensures raw == Raw(meta) && digest == md5(raw)
  {
    hide JoinDecimal, Decimal, Raw;
    NothingJoined('-');
    assert Filtered([]) == [];
    raw := Decimal(TLS_LEGACY_VERSION);
    raw := raw + [','];
    raw := WriteU16List(raw, meta.cipherSuites, true);
    raw := raw + [','];
    raw := WriteU16List(raw, meta.extensionOrder, true);
    raw := raw + [','];
    if meta.supportedGroups.Some? {
      raw := WriteU16List(raw, meta.supportedGroups.value, true);
    }
    raw := raw + [','];
    if meta.ecPointFormats.Some? {
      raw := WriteU8List(raw, meta.ecPointFormats.value);
    }
    WrittenIsRaw(meta);
    digest := md5(raw);
  }

  lemma WrittenIsRaw(m: ClientHelloMetadata)
    ensures var f := FieldsOf(m);
            Raw(m) == Decimal(TLS_LEGACY_VERSION) + [','] + JoinDecimal(f.ciphers, '-') + [',']
                      + JoinDecimal(f.extensions, '-') + [','] + JoinDecimal(f.groups, '-') + [',']
                      + JoinDecimal(f.formats, '-')
  {
    hide JoinDecimal, Decimal, FieldsOf;
    FiveJoined(Pieces(FieldsOf(m)), ',');
  }

  lemma JoinSnoc(pieces: seq<string>, last: string, sep: char, all: seq<string>)
    requires pieces != [] && all == pieces + [last]
    ensures Join(all, sep) == Join(pieces, sep) + [sep] + last
  {
    hide Join;
    JoinAppend(pieces, last, sep);
    Assoc(Join(pieces, sep), [sep], last);
  }

  lemma FiveJoined(p: seq<string>, sep: char)
    requires |p| == 5
    ensures Join(p, sep) == p[0] + [sep] + p[1] + [sep] + p[2] + [sep] + p[3] + [sep] + p[4]
  {
    assert Join(p[..1], sep) == p[0];
    hide Join;
    JoinSnoc(p[..1], p[1], sep, p[..2]);
    JoinSnoc(p[..2], p[2], sep, p[..3]);
    JoinSnoc(p[..3], p[3], sep, p[..4]);
    JoinSnoc(p[..4], p[4], sep, p);
  }

  // ── Unique decodability ──────────────────────────────────────────────────

  function Decode(raw: string): Option<Fields> {
    var p := Split(raw, ',');
    if |p| == 5 && forall i | 1 <= i < 5 :: IsNumberList(p[i], '-') then
      Some(Fields(ReadDecimals(p[1], '-'), ReadDecimals(p[2], '-'), ReadDecimals(p[3], '-'), ReadDecimals(p[4], '-')))
    else None
  }

  /** The decoder undoes the printer. */
  lemma DecodeOfRaw(m: ClientHelloMetadata)
    ensures Decode(Raw(m)) == Some(FieldsOf(m))
  {
    hide JoinDecimal, ReadDecimals, Decimal, IsNumberList, FieldsOf, Join, Split;
    var f := FieldsOf(m);
    ReadOfJoinDecimal(f.ciphers, '-');
    ReadOfJoinDecimal(f.extensions, '-');
    ReadOfJoinDecimal(f.groups, '-');
    ReadOfJoinDecimal(f.formats, '-');
    SplitOfJoin(Pieces(f), ',');
  }

  lemma VersionIs771()
    ensures Decimal(TLS_LEGACY_VERSION) == "771"
  {
    assert Decimal(771) == Decimal(77) + [Digit(1)];
    assert Decimal(77) == Decimal(7) + [Digit(7)];
  }

  /** The five fields, each in its place. */
  lemma RawPlaces(m: ClientHelloMetadata)
    ensures Split(Raw(m), ',') ==
            ["771",
             JoinDecimal(Filtered(m.cipherSuites), '-'),
             JoinDecimal(Filtered(m.extensionOrder), '-'),
             if m.supportedGroups.Some? then JoinDecimal(Filtered(m.supportedGroups.value), '-') else [],
             if m.ecPointFormats.Some? then JoinDecimal(m.ecPointFormats.value, '-') else []]
  {
    hide JoinDecimal, Decimal, Join, Split;
    var f := FieldsOf(m);
    VersionIs771();
    NothingJoined('-');
    assert Filtered([]) == [];
    ReadOfJoinDecimal(f.ciphers, '-');
    ReadOfJoinDecimal(f.extensions, '-');
    ReadOfJoinDecimal(f.groups, '-');
    ReadOfJoinDecimal(f.formats, '-');
    SplitOfJoin(Pieces(f), ',');
  }

  /** The filter keeps everything but GREASE, as often as it occurs. */
  lemma {:induction false} FilteredCount(xs: seq<u16>, x: u16)
    ensures multiset(Filtered(xs))[x] == if IsGreaseCodepoint(x) then 0 else multiset(xs)[x]
  {
    if xs != [] {
      FilteredCount(xs[1..], x);
      assert xs == [xs[0]] + xs[1..];
      var kept := if IsGreaseCodepoint(xs[0]) then [] else [xs[0]];
      assert Filtered(xs) == kept + Filtered(xs[1..]);
    }
  }

  /** Two metadata values have the same JA3 string exactly when they agree on the four
      filtered lists, in order. */
  lemma RawIff(m: ClientHelloMetadata, m': ClientHelloMetadata)
    ensures Raw(m) == Raw(m') <==> FieldsOf(m) == FieldsOf(m')
  {
    DecodeOfRaw(m);
    DecodeOfRaw(m');
  }

  function InsertAt<T>(xs: seq<T>, i: nat, x: T): seq<T>
    requires i <= |xs|
  {
    xs[..i] + [x] + xs[i..]
  }

  lemma FilteredIgnoresGrease(xs: seq<u16>, i: nat, g: u16)
    requires i <= |xs| && IsGreaseCodepoint(g)
    ensures Filtered(InsertAt(xs, i, g)) == Filtered(xs)
  {
    hide Filtered;
    FilteredConcat(xs[..i] + [g], xs[i..]);
    FilteredConcat(xs[..i], [g]);
    FilteredOne(g);
    FilteredConcat(xs[..i], xs[i..]);
    assert xs[..i] + xs[i..] == xs;
    assert Filtered(xs[..i]) + [] == Filtered(xs[..i]);
  }

  /** Inserting a GREASE value anywhere in any filtered list leaves the string alone. */
  lemma RawIgnoresGrease(m: ClientHelloMetadata, i: nat, g: u16)
    requires IsGreaseCodepoint(g)
    ensures i <= |m.cipherSuites| ==> Raw(m.(cipherSuites := InsertAt(m.cipherSuites, i, g))) == Raw(m)
    ensures i <= |m.extensionOrder| ==> Raw(m.(extensionOrder := InsertAt(m.extensionOrder, i, g))) == Raw(m)
    ensures m.supportedGroups.Some? && i <= |m.supportedGroups.value| ==>
              Raw(m.(supportedGroups := Some(InsertAt(m.supportedGroups.value, i, g)))) == Raw(m)
  {
    hide InsertAt, Pieces;
    if i <= |m.cipherSuites| {
      FilteredIgnoresGrease(m.cipherSuites, i, g);
    }
    if i <= |m.extensionOrder| {
      FilteredIgnoresGrease(m.extensionOrder, i, g);
    }
    if m.supportedGroups.Some? && i <= |m.supportedGroups.value| {
      FilteredIgnoresGrease(m.supportedGroups.value, i, g);
    }
  }
}
