/** Record reassembly (section 5.1 of RFC 8446): the handshake bytes carried by the
    leading handshake records of a stream. */
module Records {
  import opened Wire
  import opened Cursors

  const CONTENT_TYPE_HANDSHAKE: byte := 22
  const MAX_HANDSHAKE_BYTES := 0x1_0000
  const MAX_RECORD_FRAGMENT := 16_640

  // ── What a stream is ─────────────────────────────────────────────────────

  /** A handshake record: its ignored version and the fragment it carries. */
  datatype Record = Record(version: u16, fragment: bytes)

  predicate ValidRecords(rs: seq<Record>) {
    forall r <- rs :: |r.fragment| <= MAX_RECORD_FRAGMENT
  }

  function EncodeRecord(r: Record): bytes
    requires |r.fragment| <= MAX_RECORD_FRAGMENT
  {
    [CONTENT_TYPE_HANDSHAKE] + (PutU16(r.version) + P16(r.fragment))
  }

  function Stream(rs: seq<Record>): bytes
    requires ValidRecords(rs)
  {
    if rs == [] then [] else EncodeRecord(rs[0]) + Stream(rs[1..])
  }

  function Payload(rs: seq<Record>): bytes {
    if rs == [] then [] else rs[0].fragment + Payload(rs[1..])
  }

  /** Length of the handshake message whose header starts `h`. */
  function Need(h: bytes): nat
    requires |h| >= 4
  {
    4 + Be24(h[1], h[2], h[3])
  }

  predicate Complete(h: bytes) {
    |h| >= 4 && Need(h) <= |h|
  }

  /** The handshake that starts at `buf` becomes complete in the last record of `rs`. */
  ghost predicate CompletesIn(buf: bytes, rs: seq<Record>) {
    && rs != []
    && ValidRecords(rs)
    && !Complete(buf + Payload(rs[..|rs| - 1]))
    && Complete(buf + Payload(rs))
  }

  // ── The record loop as a function ────────────────────────────────────────

  function TakeRecord(s: bytes): Option<Taken<bytes>> {
    var kind :- TakeU8(s);
    if kind.value != CONTENT_TYPE_HANDSHAKE then None else
    var version :- TakeU16(kind.rest);
    var fragment :- TakeP16(version.rest);
    if |fragment.value| > MAX_RECORD_FRAGMENT then None else Some(fragment)
  }

  /** The buffer is refused once it, or the length its header announces, is over the cap. */
  predicate OverCap(buf: bytes) {
    |buf| > MAX_HANDSHAKE_BYTES || (|buf| >= 4 && Need(buf) > MAX_HANDSHAKE_BYTES)
  }

  function Assemble(s: bytes, buf: bytes): Option<bytes>
    decreases |s|
  {
    var record :- TakeRecord(s);
    var grown := buf + record.value;
    if OverCap(grown) then None
    else if Complete(grown) then Some(grown[..Need(grown)])
    else Assemble(record.rest, grown)
  }

  function Reassemble(s: bytes): Option<bytes> { Assemble(s, []) }

  /** The largest buffer the loop ever holds, from `buf` on. */
  function PeakFrom(s: bytes, buf: bytes): nat
    decreases |s|
  {
    match TakeRecord(s)
    case None => |buf|
    case Some(record) =>
      var grown := buf + record.value;
      if OverCap(grown) || Complete(grown) then |grown| else PeakFrom(record.rest, grown)
  }

  /** Records the loop reads, from `buf` on. */
  function Turns(s: bytes, buf: bytes): nat
    decreases |s|
  {
    match TakeRecord(s)
    case None => 0
    case Some(record) =>
      var grown := buf + record.value;
      if OverCap(grown) || Complete(grown) then 1 else 1 + Turns(record.rest, grown)
  }

  /** What the loop leaves behind the last record it reads, from `buf` on. */
  function Unread(s: bytes, buf: bytes): (rest: bytes)
    ensures |rest| <= |s|
    decreases |s|
  {
    match TakeRecord(s)
    case None => s
    case Some(record) =>
      var grown := buf + record.value;
      if OverCap(grown) || Complete(grown) then record.rest else Unread(record.rest, grown)
  }

  /** The loop comes out the same from both states. */
  ghost predicate SameResult(s: bytes, buf: bytes, s': bytes, buf': bytes) {
    Assemble(s, buf) == Assemble(s', buf') && PeakFrom(s, buf) == PeakFrom(s', buf')
  }

  lemma AssembleStep(start: bytes, s: bytes, buf: bytes, fragment: bytes, rest: bytes)
    requires SameResult(start, [], s, buf)
    requires TakeRecord(s) == Some(Taken(fragment, rest))
    requires !Complete(buf) && !OverCap(buf)
    ensures var grown := buf + fragment;
            && (fragment == [] ==> grown == buf)
            && (|buf| >= 4 ==> Need(grown) == Need(buf))
            && (if OverCap(grown) || Complete(grown) then
                  && PeakFrom(start, []) == |grown|
                  && Reassemble(start) == if OverCap(grown) then None else Some(grown[..Need(grown)])
                else
                  SameResult(start, [], rest, grown))
  {
  }

  lemma TurnsStep(s: bytes, buf: bytes, fragment: bytes, rest: bytes)
    requires TakeRecord(s) == Some(Taken(fragment, rest))
    ensures var grown := buf + fragment;
            Turns(s, buf) == if OverCap(grown) || Complete(grown) then 1 else 1 + Turns(rest, grown)
  {
  }

  // ── The two code paths ───────────────────────────────────────────────────

  /** One turn of the loop up to its append: a whole handshake record or nothing. */
  method ReadFragment(cursor: Cursor) returns (r: Option<bytes>)
    requires cursor.Valid()
    modifies cursor`pos
    ensures cursor.Valid() && old(cursor.pos) <= cursor.pos
    ensures r.None? <==> TakeRecord(old(cursor.Rest())).None?
    ensures r.Some? ==> TakeRecord(old(cursor.Rest())) == Some(Taken(r.value, cursor.Rest()))
    ensures r.Some? ==> cursor.pos == old(cursor.pos) + 5 + |r.value|
  {
    var contentType := cursor.ReadU8();
    if contentType.None? || contentType.value != CONTENT_TYPE_HANDSHAKE {
      return None;
    }
    var version := cursor.ReadU16();
    if version.None? {
      return None;
    }
    var fragmentLen := cursor.ReadU16();
    if fragmentLen.None? || fragmentLen.value > MAX_RECORD_FRAGMENT {
      return None;
    }
    r := cursor.ReadSlice(fragmentLen.value);
  }

  /** The multi-record loop. `peak` is the largest buffer it held, `turns` the records it
      read and `consumed` where its cursor stopped: in every turn the bytes buffered and
      five for every record are the bytes consumed. */
  method ReassembleHandshakeOwned(records: bytes)
    returns (r: Option<bytes>, ghost peak: nat, ghost turns: nat, ghost consumed: nat)
    ensures r == Reassemble(records)
    ensures peak == PeakFrom(records, []) && turns == Turns(records, [])
    ensures peak + 5 * turns <= consumed <= |records|
    ensures r.Some? ==> peak + 5 * turns == consumed
  {
    hide Turns;
    var cursor := new Cursor(records);
    var handshakeBuf: bytes := [];
    var expectedTotal: Option<nat> := None;
    ghost var rest := records;
    peak, turns, consumed := 0, 0, 0;
    while cursor.Remaining() > 0
      invariant cursor.Valid() && cursor.Rest() == rest && cursor.input == records
      invariant peak == |handshakeBuf|
      invariant SameResult(records, [], rest, handshakeBuf)
      invariant Turns(records, []) == turns + Turns(rest, handshakeBuf)
      invariant peak + 5 * turns == consumed == cursor.pos
      invariant !Complete(handshakeBuf) && !OverCap(handshakeBuf)
      invariant expectedTotal == if |handshakeBuf| < 4 then None else Some(Need(handshakeBuf))
      decreases cursor.Remaining()
    {
      var fragment := ReadFragment(cursor);
      if fragment.None? {
        NoMoreTurns(rest, handshakeBuf);
        return None, peak, turns, cursor.pos;
      }
      AssembleStep(records, rest, handshakeBuf, fragment.value, cursor.Rest());
      TurnsStep(rest, handshakeBuf, fragment.value, cursor.Rest());
      rest, turns, consumed := cursor.Rest(), turns + 1, cursor.pos;
      if fragment.value == [] {
        continue;
      }
      handshakeBuf := handshakeBuf + fragment.value;
      peak := |handshakeBuf|;
      if |handshakeBuf| > MAX_HANDSHAKE_BYTES {
        return None, peak, turns, consumed;
      }
      if expectedTotal.None? && |handshakeBuf| >= 4 {
        var total := Need(handshakeBuf);
        if total > MAX_HANDSHAKE_BYTES {
          return None, peak, turns, consumed;
        }
        expectedTotal := Some(total);
      }
      if expectedTotal.Some? && |handshakeBuf| >= expectedTotal.value {
        return Some(handshakeBuf[..expectedTotal.value]), peak, turns, consumed;
      }
    }
    NoMoreTurns(rest, handshakeBuf);
    return None, peak, turns, consumed;
  }

  lemma NoMoreTurns(s: bytes, buf: bytes)
    requires TakeRecord(s).None?
    ensures Turns(s, buf) == 0
  {
  }

  lemma CompleteIff(h: bytes)
    ensures |h| < 4 ==> !Complete(h)
    ensures |h| >= 4 ==> Need(h) >= 4 && (Complete(h) <==> Need(h) <= |h|)
  {
  }

  /** The announced fragment length of a handshake record. */
  function TakeFragmentLength(s: bytes): Option<Taken<u16>> {
    var kind :- TakeU8(s);
    if kind.value != CONTENT_TYPE_HANDSHAKE then None else
    var version :- TakeU16(kind.rest);
    TakeU16(version.rest)
  }

  lemma TakeRecordByLength(s: bytes)
    ensures TakeRecord(s) ==
            match TakeFragmentLength(s)
            case None => None
            case Some(n) => if n.value > MAX_RECORD_FRAGMENT then None else Take(n.rest, n.value)
  {
    hide Be16;
  }

  method ReadFragmentLength(cursor: Cursor) returns (r: Option<u16>)
    requires cursor.Valid()
    modifies cursor`pos
    ensures cursor.Valid()
    ensures r.None? <==> TakeFragmentLength(old(cursor.Rest())).None?
    ensures r.Some? ==> TakeFragmentLength(old(cursor.Rest())) == Some(Taken(r.value, cursor.Rest()))
  {
    hide Be16;
    var contentType := cursor.ReadU8();
    if contentType.None? || contentType.value != CONTENT_TYPE_HANDSHAKE {
      return None;
    }
    var version := cursor.ReadU16();
    if version.None? {
      return None;
    }
    r := cursor.ReadU16();
  }

  /** The zero-copy path: the whole handshake in the first record, or nothing. */
  method TryReassembleSingleRecord(records: bytes) returns (r: Option<bytes>)
    ensures r == FastPath(records)
  {
    hide Complete, Need, TakeRecord, TakeFragmentLength;
    TakeRecordByLength(records);
    var cursor := new Cursor(records);
    var fragmentLen := ReadFragmentLength(cursor);
    if fragmentLen.None? {
      return None;
    }
    if TakeRecord(records).Some? {
      CompleteIff(TakeRecord(records).value.value);
    }
    if !(4 <= fragmentLen.value <= MAX_RECORD_FRAGMENT) {
      return None;
    }
    var fragment := cursor.ReadSlice(fragmentLen.value);
    if fragment.None? {
      return None;
    }
    var total := Need(fragment.value);
    if total > MAX_HANDSHAKE_BYTES {
      return None;
    }
    return if total <= fragmentLen.value then Some(fragment.value[..total]) else None;
  }

  /** What the zero-copy path returns: it looks at one record and never at a cap. */
  function FastPath(s: bytes): Option<bytes> {
    var record :- TakeRecord(s);
    if Complete(record.value) then Some(record.value[..Need(record.value)]) else None
  }

  /** The zero-copy path in front of the loop computes what the loop alone computes. */
  method ParseRecordInner(records: bytes) returns (r: Option<bytes>)
    ensures r == Reassemble(records)
  {
    FastPathRefines(records);
    r := TryReassembleSingleRecord(records);
    if r.None? {
      ghost var peak, turns, consumed;
      r, peak, turns, consumed := ReassembleHandshakeOwned(records);
    }
  }

  lemma FastPathRefines(s: bytes)
    ensures FastPath(s).Some? ==> Reassemble(s) == FastPath(s)
  {
    if FastPath(s).Some? {
      var record := TakeRecord(s).value;
      assert [] + record.value == record.value;
    }
  }
}
