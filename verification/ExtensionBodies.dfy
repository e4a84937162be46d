/** The typed extension bodies: what each parser accepts, and the printer that makes
    exactly the accepted bodies. */
module ExtensionBodies {
  import opened Wire
  import opened Cursors

  // ── Bodies as functions ──────────────────────────────────────────────────

  function Prepend<T>(front: seq<T>, back: Option<seq<T>>): Option<seq<T>> {
    match back
    case None => None
    case Some(later) => Some(front + later)
  }

  /** ProtocolNames until the list is used up (section 3.1 of RFC 7301); none is empty. */
  function AlpnEntries(s: bytes): Option<seq<bytes>>
    decreases |s|
  {
    if s == [] then Some([])
    else
      var name :- TakeP8(s);
      if name.value == [] then None else Prepend([name.value], AlpnEntries(name.rest))
  }

  function Alpn(data: bytes): Option<seq<bytes>> {
    var list :- TakeP16(data);
    AlpnEntries(list.value)
  }

  /** The groups of KeyShareEntries until the list is used up (section 4.2.8 of RFC 8446). */
  function KeyShareEntries(s: bytes): Option<seq<u16>>
    decreases |s|
  {
    if s == [] then Some([])
    else
      var group :- TakeShare(s);
      Prepend([group.value], KeyShareEntries(group.rest))
  }

  /** The group of one KeyShareEntry; its key is read and dropped. */
  function TakeShare(s: bytes): Option<Taken<u16>> {
    var group :- TakeU16(s);
    var key :- TakeP16(group.rest);
    Some(Taken(group.value, key.rest))
  }

  function KeyShare(data: bytes): Option<seq<u16>> {
    var list :- TakeP16(data);
    KeyShareEntries(list.value)
  }

  function Codepoints(list: bytes): Option<seq<u16>> {
    if list == [] || |list| % 2 != 0 then None else Some(U16s(list))
  }

  function U16List(data: bytes): Option<seq<u16>> {
    var list :- TakeP16(data);
    Codepoints(list.value)
  }

  function SupportedVersions(data: bytes): Option<seq<u16>> {
    var list :- TakeP8(data);
    Codepoints(list.value)
  }

  function EcPointFormats(data: bytes): Option<bytes> {
    var list :- TakeP8(data);
    if list.value == [] then None else Some(list.value)
  }

  function RecordSizeLimit(data: bytes): Option<u16> {
    var limit :- TakeU16(data);
    if limit.rest == [] && 64 <= limit.value <= 16385 then Some(limit.value) else None
  }

  // ── The imperative parsers ───────────────────────────────────────────────

  method ParseAlpnExtension(data: bytes) returns (r: Option<seq<bytes>>)
    ensures r == Alpn(data)
  {
    var c := new Cursor(data);
    var list := c.ReadU16Prefixed();
    if list.None? {
      return None;
    }
    r := ReadProtocolNames(list.value);
  }

  method ReadProtocolNames(list: bytes) returns (r: Option<seq<bytes>>)
    ensures r == AlpnEntries(list)
  {
    var entries := new Cursor(list);
    var out: seq<bytes> := [];
    ghost var rest := list;
    PrependNothing(AlpnEntries(list));
    while entries.Remaining() > 0
      invariant entries.Valid() && entries.Rest() == rest
      invariant AlpnProgress(list, out, rest)
      decreases entries.Remaining()
    {
      var proto := entries.ReadU8Prefixed();
      if proto.None? || proto.value == [] {
        return None;
      }
      AlpnStep(list, out, rest);
      out, rest := out + [proto.value], entries.Rest();
    }
    assert out + [] == out;
    return Some(out);
  }

  /** `out` has been read off the front of `list`, and `rest` is what remains. */
  ghost predicate AlpnProgress(list: bytes, out: seq<bytes>, rest: bytes) {
    AlpnEntries(list) == Prepend(out, AlpnEntries(rest))
  }

  lemma AlpnStep(list: bytes, out: seq<bytes>, rest: bytes)
    requires AlpnProgress(list, out, rest)
    requires rest != [] && TakeP8(rest).Some? && TakeP8(rest).value.value != []
    ensures var name := TakeP8(rest).value; AlpnProgress(list, out + [name.value], name.rest)
  {
    var name := TakeP8(rest).value;
    PrependOnce(out, name.value, AlpnEntries(name.rest));
  }

  lemma PrependNothing<T>(o: Option<seq<T>>)
    ensures Prepend([], o) == o
  {
    if o.Some? {
      assert [] + o.value == o.value;
    }
  }

  lemma PrependOnce<T>(out: seq<T>, x: T, later: Option<seq<T>>)
    ensures Prepend(out, Prepend([x], later)) == Prepend(out + [x], later)
  {
    if later.Some? {
      Assoc(out, [x], later.value);
    }
  }

  method ParseKeyShareExtension(data: bytes) returns (r: Option<seq<u16>>)
    ensures r == KeyShare(data)
  {
    var c := new Cursor(data);
    var list := c.ReadU16Prefixed();
    if list.None? {
      return None;
    }
    r := ReadShareGroups(list.value);
  }

  method ReadShareGroups(list: bytes) returns (r: Option<seq<u16>>)
    ensures r == KeyShareEntries(list)
  {
    var entries := new Cursor(list);
    var groups: seq<u16> := [];
    ghost var rest := list;
    PrependNothing(KeyShareEntries(list));
    while entries.Remaining() > 0
      invariant entries.Valid() && entries.Rest() == rest
      invariant KeyShareProgress(list, groups, rest)
      decreases entries.Remaining()
    {
      var group := ReadShare(entries);
      if group.None? {
        return None;
      }
      KeyShareStep(list, groups, rest);
      groups, rest := groups + [group.value], entries.Rest();
    }
    assert groups + [] == groups;
    return Some(groups);
  }

  method ReadShare(entries: Cursor) returns (r: Option<u16>)
    requires entries.Valid()
    modifies entries`pos
    ensures entries.Valid()
    ensures r.None? <==> TakeShare(old(entries.Rest())).None?
    ensures r.Some? ==> TakeShare(old(entries.Rest())) == Some(Taken(r.value, entries.Rest()))
  {
    r := entries.ReadU16();
    if r.Some? {
      var keyExchange := entries.ReadU16Prefixed();
      if keyExchange.None? {
        return None;
      }
    }
  }

  ghost predicate KeyShareProgress(list: bytes, groups: seq<u16>, rest: bytes) {
    KeyShareEntries(list) == Prepend(groups, KeyShareEntries(rest))
  }

  lemma KeyShareStep(list: bytes, groups: seq<u16>, rest: bytes)
    requires KeyShareProgress(list, groups, rest)
    requires rest != [] && TakeShare(rest).Some?
    ensures var group := TakeShare(rest).value; KeyShareProgress(list, groups + [group.value], group.rest)
  {
    var group := TakeShare(rest).value;
    PrependOnce(groups, group.value, KeyShareEntries(group.rest));
  }

  /** The codepoint loop that three of the bodies share. */
  method ReadCodepoints(list: bytes) returns (r: Option<seq<u16>>)
    ensures r == Codepoints(list)
  {
    if list == [] || |list| % 2 != 0 {
      return None;
    }
    var entries := new Cursor(list);
    var out: seq<u16> := [];
    while entries.Remaining() > 0
      invariant entries.Valid()
      invariant |entries.Rest()| % 2 == 0
      invariant U16s(list) == out + U16s(entries.Rest())
      decreases entries.Remaining()
    {
      var x := entries.ReadU16();
      Assoc(out, [x.value], U16s(entries.Rest()));
      out := out + [x.value];
    }
    assert out + [] == out;
    return Some(out);
  }

  method ParseU16PrefixedU16List(data: bytes) returns (r: Option<seq<u16>>)
    ensures r == U16List(data)
  {
    var c := new Cursor(data);
    var list := c.ReadU16Prefixed();
    if list.None? {
      return None;
    }
    r := ReadCodepoints(list.value);
  }

  method ParseSupportedVersionsExtension(data: bytes) returns (r: Option<seq<u16>>)
    ensures r == SupportedVersions(data)
  {
    var c := new Cursor(data);
    var list := c.ReadU8Prefixed();
    if list.None? {
      return None;
    }
    r := ReadCodepoints(list.value);
  }

  method ParseEcPointFormatsExtension(data: bytes) returns (r: Option<bytes>)
    ensures r == EcPointFormats(data)
  {
    var c := new Cursor(data);
    var list := c.ReadU8Prefixed();
    if list.None? || list.value == [] {
      return None;
    }
    return list;
  }

  method ParseRecordSizeLimitExtension(data: bytes) returns (r: Option<u16>)
    ensures r == RecordSizeLimit(data)
  {
    var c := new Cursor(data);
    var limit := c.ReadU16();
    if limit.None? || c.Remaining() != 0 || !(64 <= limit.value <= 16385) {
      return None;
    }
    return limit;
  }

  // ── Printers, and exactness of every body ────────────────────────────────

  predicate ValidNames(names: seq<bytes>) {
    forall n <- names :: 1 <= |n| < 0x100
  }

  function PutNames(names: seq<bytes>): bytes
    requires ValidNames(names)
  {
    if names == [] then [] else P8(names[0]) + PutNames(names[1..])
  }

  lemma {:induction false} AlpnEntriesOfNames(names: seq<bytes>)
    requires ValidNames(names)
    ensures AlpnEntries(PutNames(names)) == Some(names)
  {
    if names != [] {
      AlpnEntriesOfNames(names[1..]);
      TakeP8Iff(PutNames(names), names[0], PutNames(names[1..]));
      assert names[0] in names && names == [names[0]] + names[1..];
    }
  }

  lemma {:induction false} NamesOfAlpnEntries(s: bytes)
    requires AlpnEntries(s).Some?
    ensures ValidNames(AlpnEntries(s).value) && s == PutNames(AlpnEntries(s).value)
    decreases |s|
  {
    if s != [] {
      var name := TakeP8(s).value;
      NamesOfAlpnEntries(name.rest);
      TakeP8Iff(s, name.value, name.rest);
      assert AlpnEntries(s).value[1..] == AlpnEntries(name.rest).value;
    }
  }

  /** An ALPN body reads as `names` exactly when it prints them, all non-empty, with
      anything behind the list. */
  lemma AlpnIff(data: bytes, names: seq<bytes>)
    ensures Alpn(data) == Some(names) <==>
            && ValidNames(names) && |PutNames(names)| < 0x1_0000
            && P16(PutNames(names)) <= data
  {
    if Alpn(data) == Some(names) {
      NamesOfAlpnEntries(TakeP16(data).value.value);
    }
    if ValidNames(names) {
      AlpnEntriesOfNames(names);
      TakeP16Prefix(data, PutNames(names));
    }
  }

  datatype Share = Share(group: u16, key: bytes)

  predicate ValidShares(shares: seq<Share>) {
    forall x <- shares :: |x.key| < 0x1_0000
  }

  function PutShares(shares: seq<Share>): bytes
    requires ValidShares(shares)
  {
    if shares == [] then [] else PutU16(shares[0].group) + (P16(shares[0].key) + PutShares(shares[1..]))
  }

  function Groups(shares: seq<Share>): (groups: seq<u16>)
    ensures |groups| == |shares|
  {
    if shares == [] then [] else [shares[0].group] + Groups(shares[1..])
  }

  lemma {:induction false} KeyShareEntriesOfShares(shares: seq<Share>)
    requires ValidShares(shares)
    ensures KeyShareEntries(PutShares(shares)) == Some(Groups(shares))
  {
    if shares != [] {
      var later := PutShares(shares[1..]);
      KeyShareEntriesOfShares(shares[1..]);
      TakeU16Iff(PutShares(shares), shares[0].group, P16(shares[0].key) + later);
      TakeP16Iff(P16(shares[0].key) + later, shares[0].key, later);
    }
  }

  lemma {:induction false} SharesOfKeyShareEntries(s: bytes) returns (shares: seq<Share>)
    requires KeyShareEntries(s).Some?
    ensures ValidShares(shares) && s == PutShares(shares)
    ensures Groups(shares) == KeyShareEntries(s).value
    decreases |s|
  {
    shares := [];
    if s != [] {
      var group := TakeU16(s).value;
      var key := TakeP16(group.rest).value;
      var later := SharesOfKeyShareEntries(key.rest);
      shares := [Share(group.value, key.value)] + later;
      assert shares[1..] == later;
      TakeU16Iff(s, group.value, group.rest);
      TakeP16Iff(group.rest, key.value, key.rest);
    }
  }

  /** `data` is a list of these shares, with anything behind it. */
  ghost predicate ListsShares(data: bytes, shares: seq<Share>) {
    ValidShares(shares) && |PutShares(shares)| < 0x1_0000 && P16(PutShares(shares)) <= data
  }

  /** A key_share body reads as `groups` exactly when it lists shares of those groups,
      whatever the keys. */
  lemma KeyShareIff(data: bytes, groups: seq<u16>)
    ensures KeyShare(data) == Some(groups) <==> exists shares :: ListsShares(data, shares) && groups == Groups(shares)
  {
    if KeyShare(data) == Some(groups) {
      var shares := SharesOfKeyShareEntries(TakeP16(data).value.value);
      TakeP16Prefix(data, PutShares(shares));
      assert ListsShares(data, shares);
    }
    if shares :| ListsShares(data, shares) && groups == Groups(shares) {
      KeyShareEntriesOfShares(shares);
      TakeP16Prefix(data, PutShares(shares));
    }
  }

  lemma CodepointsIff(list: bytes, xs: seq<u16>)
    ensures Codepoints(list) == Some(xs) <==> xs != [] && list == PutU16s(xs)
  {
    U16sIff(list, xs);
  }

  /** signature_algorithms and supported_groups read as `xs` exactly when they print it. */
  lemma U16ListIff(data: bytes, xs: seq<u16>)
    ensures U16List(data) == Some(xs) <==> 1 <= |xs| < 0x8000 && P16(PutU16s(xs)) <= data
  {
    TakeP16Prefix(data, PutU16s(xs));
    if TakeP16(data).Some? {
      CodepointsIff(TakeP16(data).value.value, xs);
    }
  }

  lemma SupportedVersionsIff(data: bytes, xs: seq<u16>)
    ensures SupportedVersions(data) == Some(xs) <==> 1 <= |xs| < 0x80 && P8(PutU16s(xs)) <= data
  {
    TakeP8Prefix(data, PutU16s(xs));
    if TakeP8(data).Some? {
      CodepointsIff(TakeP8(data).value.value, xs);
    }
  }

  lemma EcPointFormatsIff(data: bytes, formats: bytes)
    ensures EcPointFormats(data) == Some(formats) <==> 1 <= |formats| < 0x100 && P8(formats) <= data
  {
    TakeP8Prefix(data, formats);
  }

  /** Unlike the other bodies, record_size_limit tolerates nothing behind the value. */
  lemma RecordSizeLimitIff(data: bytes, limit: u16)
    ensures RecordSizeLimit(data) == Some(limit) <==> 64 <= limit <= 16385 && data == PutU16(limit)
  {
    TakeU16Iff(data, limit, []);
    assert PutU16(limit) + [] == PutU16(limit);
  }
}
