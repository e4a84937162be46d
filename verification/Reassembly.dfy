/** What reassembly promises about every byte stream: which streams are accepted, and
    that neither fragmentation nor what follows the handshake can change the answer. */
module Reassembly {
  import opened Wire
  import opened Records

  // ── One record ───────────────────────────────────────────────────────────

  lemma TakeEncoded(r: Record, rest: bytes)
    requires |r.fragment| <= MAX_RECORD_FRAGMENT
    ensures TakeRecord(EncodeRecord(r) + rest) == Some(Taken(r.fragment, rest))
  {
    var s := EncodeRecord(r) + rest;
    var afterKind := PutU16(r.version) + (P16(r.fragment) + rest);
    assert s == [CONTENT_TYPE_HANDSHAKE] + afterKind;
    assert s[1..] == afterKind;
    TakeU16Iff(afterKind, r.version, P16(r.fragment) + rest);
    TakeP16Iff(P16(r.fragment) + rest, r.fragment, rest);
  }

  lemma TakenIsEncoded(s: bytes) returns (r: Record)
    requires TakeRecord(s).Some?
    ensures r.fragment == TakeRecord(s).value.value
    ensures |r.fragment| <= MAX_RECORD_FRAGMENT
    ensures s == EncodeRecord(r) + TakeRecord(s).value.rest
  {
    var fragment := TakeRecord(s).value;
    var version := TakeU16(s[1..]).value;
    r := Record(version.value, fragment.value);
    TakeU16Iff(s[1..], version.value, version.rest);
    TakeP16Iff(version.rest, fragment.value, fragment.rest);
    assert s == [s[0]] + s[1..];
    assert s == EncodeRecord(r) + fragment.rest;
  }

  // ── Accepted streams, both directions ────────────────────────────────────

  lemma CompleteIsMonotone(h: bytes, more: bytes)
    requires Complete(h)
    ensures Complete(h + more) && Need(h + more) == Need(h)
    ensures (h + more)[..Need(h)] == h[..Need(h)]
  {
  }

  lemma {:induction false} PayloadConcat(xs: seq<Record>, ys: seq<Record>)
    ensures Payload(xs + ys) == Payload(xs) + Payload(ys)
  {
    if xs == [] {
      assert xs + ys == ys;
    } else {
      PayloadConcat(xs[1..], ys);
      assert (xs + ys)[1..] == xs[1..] + ys;
      Assoc(xs[0].fragment, Payload(xs[1..]), Payload(ys));
    }
  }

  lemma {:induction false} StreamConcat(xs: seq<Record>, ys: seq<Record>)
    requires ValidRecords(xs) && ValidRecords(ys)
    ensures ValidRecords(xs + ys) && Stream(xs + ys) == Stream(xs) + Stream(ys)
  {
    if xs == [] {
      assert xs + ys == ys;
    } else {
      StreamConcat(xs[1..], ys);
      assert (xs + ys)[1..] == xs[1..] + ys;
      Assoc(EncodeRecord(xs[0]), Stream(xs[1..]), Stream(ys));
    }
  }

  /** The first record of a completing run either completes the handshake by itself or
      leaves a run that completes it. */
  lemma CompletesInSplit(buf: bytes, rs: seq<Record>)
    requires rs != [] && ValidRecords(rs) && !Complete(buf)
    ensures var grown := buf + rs[0].fragment;
            CompletesIn(buf, rs) <==>
              if |rs| == 1 then Complete(grown) else !Complete(grown) && CompletesIn(grown, rs[1..])
  {
    var grown := buf + rs[0].fragment;
    assert buf + Payload(rs) == grown + Payload(rs[1..]);
    if |rs| == 1 {
      assert buf + Payload(rs[..0]) == buf;
      assert grown + Payload(rs[1..]) == grown;
    } else {
      var init := rs[..|rs| - 1];
      assert init[1..] == rs[1..][..|rs| - 2];
      assert buf + Payload(init) == grown + Payload(init[1..]);
      if Complete(grown) {
        CompleteIsMonotone(grown, Payload(init[1..]));
      }
    }
  }

  /** On a stream whose records complete a handshake the loop stops in the completing
      record; it returns the handshake exactly when everything buffered by then, the
      bytes behind the handshake included, is within the cap. */
  lemma {:induction false} AssembleOnCompleting(buf: bytes, rs: seq<Record>, rest: bytes)
    requires !Complete(buf) && CompletesIn(buf, rs)
    ensures Assemble(Stream(rs) + rest, buf) == Answer(buf + Payload(rs))
    decreases |rs|
  {
    var grown := buf + rs[0].fragment;
    CompletesInSplit(buf, rs);
    TakeHead(rs, rest);
    AssembleOnce(Stream(rs) + rest, buf, rs[0].fragment, Stream(rs[1..]) + rest);
    Assoc(buf, rs[0].fragment, Payload(rs[1..]));
    if |rs| == 1 {
      assert grown + Payload(rs[1..]) == grown;
    } else if OverCap(grown) {
      CapOnlyGrows(grown, Payload(rs[1..]));
    } else {
      AssembleOnCompleting(grown, rs[1..], rest);
    }
  }

  lemma TakeHead(rs: seq<Record>, rest: bytes)
    requires rs != [] && ValidRecords(rs)
    ensures TakeRecord(Stream(rs) + rest) == Some(Taken(rs[0].fragment, Stream(rs[1..]) + rest))
  {
    var tail := Stream(rs[1..]) + rest;
    Assoc(EncodeRecord(rs[0]), Stream(rs[1..]), rest);
    TakeEncoded(rs[0], tail);
  }

  lemma AssembleOnce(s: bytes, buf: bytes, fragment: bytes, rest: bytes)
    requires TakeRecord(s) == Some(Taken(fragment, rest))
    ensures var grown := buf + fragment;
            && (Complete(grown) ==> Assemble(s, buf) == Answer(grown))
            && (OverCap(grown) ==> Assemble(s, buf) == None)
            && (!Complete(grown) && !OverCap(grown) ==> Assemble(s, buf) == Assemble(rest, grown))
  {
  }

  /** The answer for a buffer in which the handshake has just become complete. */
  function Answer(buf: bytes): Option<bytes>
    requires Complete(buf)
  {
    if |buf| <= MAX_HANDSHAKE_BYTES then Some(buf[..Need(buf)]) else None
  }

  lemma CapOnlyGrows(buf: bytes, more: bytes)
    requires OverCap(buf)
    ensures OverCap(buf + more)
  {
  }

  /** Whatever is returned was carried by records that complete it within the cap. */
  lemma {:induction false} AssembleFindsRecords(s: bytes, buf: bytes) returns (rs: seq<Record>, rest: bytes)
    requires !Complete(buf) && Assemble(s, buf).Some?
    ensures CompletesIn(buf, rs) && s == Stream(rs) + rest
    ensures Assemble(s, buf) == Answer(buf + Payload(rs)) && Answer(buf + Payload(rs)).Some?
    decreases |s|
  {
    var r := TakenIsEncoded(s);
    var left := TakeRecord(s).value.rest;
    var grown := buf + r.fragment;
    if Complete(grown) {
      rs, rest := [r], left;
      OneRecord(buf, r, rest);
    } else {
      var more;
      more, rest := AssembleFindsRecords(left, grown);
      rs := [r] + more;
      MoreRecords(buf, r, more, rest);
    }
    CompletesInSplit(buf, rs);
  }

  lemma OneRecord(buf: bytes, r: Record, rest: bytes)
    requires |r.fragment| <= MAX_RECORD_FRAGMENT
    ensures ValidRecords([r]) && Stream([r]) == EncodeRecord(r)
    ensures buf + Payload([r]) == buf + r.fragment
  {
    assert Payload([r]) == r.fragment;
    assert EncodeRecord(r) + [] == EncodeRecord(r);
  }

  lemma MoreRecords(buf: bytes, r: Record, more: seq<Record>, rest: bytes)
    requires |r.fragment| <= MAX_RECORD_FRAGMENT && ValidRecords(more)
    ensures var rs := [r] + more;
            && ValidRecords(rs) && rs[1..] == more
            && Stream(rs) + rest == EncodeRecord(r) + (Stream(more) + rest)
            && buf + Payload(rs) == (buf + r.fragment) + Payload(more)
  {
    var rs := [r] + more;
    assert rs[1..] == more;
  }

  /** `s` starts with records that complete the handshake `h` within the cap. */
  ghost predicate Carries(s: bytes, h: bytes, rs: seq<Record>) {
    && CompletesIn([], rs)
    && Stream(rs) <= s
    && Some(h) == Answer([] + Payload(rs))
  }

  /** Reassembly is exact: it returns `h` precisely on the streams whose leading
      handshake records first complete a handshake, that handshake being `h`, with at
      most 64 KiB buffered when they do. */
  lemma ReassembleIff(s: bytes, h: bytes)
    ensures Reassemble(s) == Some(h) <==> exists rs :: Carries(s, h, rs)
  {
    if Reassemble(s) == Some(h) {
      var rs, rest := AssembleFindsRecords(s, []);
      assert Carries(s, h, rs);
    }
    if rs :| Carries(s, h, rs) {
      CarriedIsReturned(s, h, rs);
    }
  }

  lemma CarriedIsReturned(s: bytes, h: bytes, rs: seq<Record>)
    requires Carries(s, h, rs)
    ensures Reassemble(s) == Some(h)
  {
    var rest := s[|Stream(rs)|..];
    assert s == Stream(rs) + rest;
    AssembleOnCompleting([], rs, rest);
  }

  /** The same in bytes: records at the front of `s`, the last of which completes `h`; the
      length in the header of `h` is its own; and at most 65536 bytes have been buffered. */
  ghost predicate Delivers(s: bytes, h: bytes, rs: seq<Record>) {
    && rs != [] && ValidRecords(rs) && Stream(rs) <= s
    && |Payload(rs[..|rs| - 1])| < |h| && h <= Payload(rs) && |Payload(rs)| <= 65536
    && |h| >= 4 && |h| == 4 + (h[1] as int) * 65536 + (h[2] as int) * 256 + h[3] as int
  }

  lemma PayloadOfInit(rs: seq<Record>)
    requires rs != []
    ensures Payload(rs) == Payload(rs[..|rs| - 1]) + rs[|rs| - 1].fragment
  {
    var init, last := rs[..|rs| - 1], rs[|rs| - 1];
    PayloadConcat(init, [last]);
    assert rs == init + [last];
    assert last.fragment + [] == last.fragment;
  }

  /** The announced length of a handshake is that of any buffer that starts with it. */
  lemma NeedOfPrefix(h: bytes, buf: bytes)
    requires h <= buf && |h| >= 4
    ensures Need(h) == Need(buf) && Need(h) == 4 + (h[1] as int) * 65536 + (h[2] as int) * 256 + h[3] as int
  {
  }

  lemma DeliversIff(s: bytes, h: bytes, rs: seq<Record>)
    ensures Carries(s, h, rs) <==> Delivers(s, h, rs)
  {
    hide Stream, Payload, Need;
    if rs != [] {
      PayloadOfInit(rs);
      var init, all := Payload(rs[..|rs| - 1]), Payload(rs);
      assert [] + init == init && [] + all == all;
      if |init| >= 4 {
        NeedOfPrefix(init, all);
      }
      if |h| >= 4 && h <= all {
        NeedOfPrefix(h, all);
        assert h == all[..|h|];
      }
      if Carries(s, h, rs) {
        NeedOfPrefix(all, all);
        assert h == all[..Need(all)] && h <= all;
        NeedOfPrefix(h, all);
      }
    }
  }

  lemma ReassembleExactly(s: bytes, h: bytes)
    ensures Reassemble(s) == Some(h) <==> exists rs :: Delivers(s, h, rs)
  {
    hide Carries, Delivers, Reassemble;
    ReassembleIff(s, h);
    forall rs ensures Carries(s, h, rs) <==> Delivers(s, h, rs) {
      DeliversIff(s, h, rs);
    }
  }

  /** "Bytes past the end of the first complete handshake are ignored" holds exactly when
      the record that completes it does not push the buffer over the cap. */
  lemma FirstCompleteWinsIff(rs: seq<Record>, rest: bytes)
    requires CompletesIn([], rs)
    requires Need(Payload(rs)) <= MAX_HANDSHAKE_BYTES
    ensures Reassemble(Stream(rs) + rest) == Some(Payload(rs)[..Need(Payload(rs))])
            <==> |Payload(rs)| <= MAX_HANDSHAKE_BYTES
  {
    AssembleOnCompleting([], rs, rest);
    assert [] + Payload(rs) == Payload(rs);
  }

  // ── Refragmentation ──────────────────────────────────────────────────────

  /** The records up to and including the one that completes the handshake. */
  lemma {:induction false} CompletingPrefix(rs: seq<Record>) returns (k: nat)
    requires ValidRecords(rs) && Complete(Payload(rs))
    ensures 0 < k <= |rs| && CompletesIn([], rs[..k])
    decreases |rs|
  {
    var init := rs[..|rs| - 1];
    assert [] + Payload(rs) == Payload(rs);
    assert [] + Payload(init) == Payload(init);
    if Complete(Payload(init)) {
      k := CompletingPrefix(init);
      assert init[..k] == rs[..k];
    } else {
      k := |rs|;
      assert rs[..k] == rs;
    }
  }

  /** Refragmentation: cut a handshake `h` (and anything that follows it in the last
      records) into handshake records in any way, with any record versions, empty
      records included, and append any bytes. Reassembly gives back exactly `h`. */
  lemma Refragmentation(h: bytes, rs: seq<Record>, rest: bytes)
    requires Complete(h) && |h| == Need(h)
    requires ValidRecords(rs) && h <= Payload(rs) && |Payload(rs)| <= MAX_HANDSHAKE_BYTES
    ensures Reassemble(Stream(rs) + rest) == Some(h)
  {
    var extra := Payload(rs)[|h|..];
    assert Payload(rs) == h + extra;
    HandshakeOf(h, extra);
    var k := CompletingPrefix(rs);
    var front, back := rs[..k], rs[k..];
    assert rs == front + back;
    PayloadConcat(front, back);
    AssembleFront(front, back, rest);
    AnswerOfFront(Payload(front), Payload(back));
  }

  lemma AssembleFront(front: seq<Record>, back: seq<Record>, rest: bytes)
    requires CompletesIn([], front) && ValidRecords(back)
    ensures ValidRecords(front + back)
    ensures Complete(Payload(front)) && Reassemble(Stream(front + back) + rest) == Answer(Payload(front))
  {
    StreamConcat(front, back);
    Assoc(Stream(front), Stream(back), rest);
    AssembleOnCompleting([], front, Stream(back) + rest);
    assert [] + Payload(front) == Payload(front);
  }

  lemma HandshakeOf(h: bytes, extra: bytes)
    requires Complete(h) && |h| == Need(h)
    ensures Complete(h + extra) && (h + extra)[..Need(h + extra)] == h
  {
    CompleteIsMonotone(h, extra);
    assert h[..Need(h)] == h;
  }

  lemma AnswerOfFront(front: bytes, back: bytes)
    requires Complete(front) && |front + back| <= MAX_HANDSHAKE_BYTES
    ensures Complete(front + back) && Answer(front) == Answer(front + back)
  {
    CompleteIsMonotone(front, back);
  }

  // ── One decision point per stream ────────────────────────────────────────

  /** More bytes never change an answer that has been given. */
  lemma AppendKeepsAnswer(s: bytes, more: bytes)
    requires Reassemble(s).Some?
    ensures Reassemble(s + more) == Reassemble(s)
  {
    var h := Reassemble(s).value;
    ReassembleIff(s, h);
    var rs :| Carries(s, h, rs);
    assert Carries(s + more, h, rs);
    ReassembleIff(s + more, h);
  }

  /** Two completing runs that start the same stream are the same length. */
  lemma {:induction false} CompletingRunIsUnique(s: bytes, buf: bytes, rs: seq<Record>, rs': seq<Record>)
    requires !Complete(buf) && CompletesIn(buf, rs) && CompletesIn(buf, rs')
    requires Stream(rs) <= s && Stream(rs') <= s
    ensures |Stream(rs)| == |Stream(rs')|
    decreases |rs|
  {
    CompletesInSplit(buf, rs);
    CompletesInSplit(buf, rs');
    var rest := TakeHeadOf(s, rs);
    var rest' := TakeHeadOf(s, rs');
    if |rs| > 1 {
      CompletingRunIsUnique(rest, buf + rs[0].fragment, rs[1..], rs'[1..]);
    }
  }

  lemma TakeHeadOf(s: bytes, rs: seq<Record>) returns (rest: bytes)
    requires rs != [] && ValidRecords(rs) && Stream(rs) <= s
    ensures TakeRecord(s) == Some(Taken(rs[0].fragment, rest))
    ensures Stream(rs[1..]) <= rest
    ensures |Stream(rs)| == 5 + |rs[0].fragment| + |Stream(rs[1..])|
  {
    var more := s[|Stream(rs)|..];
    assert s == Stream(rs) + more;
    TakeHead(rs, more);
    rest := Stream(rs[1..]) + more;
  }

  /** A stream cut anywhere before the end of its completing record has no answer yet:
      every strict prefix of the shortest accepted stream is refused. */
  lemma StrictPrefixIsRefused(rs: seq<Record>, cut: nat)
    requires CompletesIn([], rs) && cut < |Stream(rs)|
    ensures Reassemble(Stream(rs)[..cut]).None?
  {
    var s := Stream(rs)[..cut];
    if Reassemble(s).Some? {
      var rs', rest := AssembleFindsRecords(s, []);
      assert s == Stream(rs)[..cut] && Stream(rs') <= s;
      assert Stream(rs') <= Stream(rs);
      CompletingRunIsUnique(Stream(rs), [], rs, rs');
    }
  }

  /** A record of another content type before the handshake is complete refuses the
      stream for good, whatever follows. */
  lemma {:induction false} OtherContentTypeRefuses(rs: seq<Record>, buf: bytes, other: byte, rest: bytes)
    requires ValidRecords(rs) && !Complete(buf + Payload(rs))
    requires other != CONTENT_TYPE_HANDSHAKE
    ensures Assemble(Stream(rs) + ([other] + rest), buf).None?
    decreases |rs|
  {
    var tail := [other] + rest;
    if rs == [] {
      assert Stream(rs) + tail == tail;
    } else {
      var grown := buf + rs[0].fragment;
      TakeHead(rs, tail);
      AssembleOnce(Stream(rs) + tail, buf, rs[0].fragment, Stream(rs[1..]) + tail);
      Assoc(buf, rs[0].fragment, Payload(rs[1..]));
      if Complete(grown) {
        CompleteIsMonotone(grown, Payload(rs[1..]));
        assert false;
      }
      OtherContentTypeRefuses(rs[1..], grown, other, rest);
    }
  }

  /** The single-record path succeeds exactly when the first record, taken as the whole
      stream, already carries the handshake. */
  lemma FastPathIff(s: bytes)
    ensures TakeRecord(s).None? ==> FastPath(s).None?
    ensures TakeRecord(s).Some? ==>
              var first := s[..|s| - |TakeRecord(s).value.rest|];
              FastPath(s) == Reassemble(first)
  {
    if TakeRecord(s).Some? {
      var r := TakenIsEncoded(s);
      var rest := TakeRecord(s).value.rest;
      var first := s[..|s| - |rest|];
      assert first == EncodeRecord(r) && first == first + [];
      TakeEncoded(r, []);
      AssembleOnce(first, [], r.fragment, []);
      assert [] + r.fragment == r.fragment;
    }
  }

  // ── Resource bounds ──────────────────────────────────────────────────────

  /** The buffer is below the cap before every append, so it never exceeds the cap by
      a whole record; buffered bytes and five bytes for every record read are exactly the
      bytes of those records; and the result is within the cap. */
  lemma {:induction false} PeakBound(s: bytes, buf: bytes)
    requires !Complete(buf) && !OverCap(buf)
    ensures |buf| < MAX_HANDSHAKE_BYTES
    ensures PeakFrom(s, buf) < MAX_HANDSHAKE_BYTES + MAX_RECORD_FRAGMENT
    ensures PeakFrom(s, buf) + 5 * Turns(s, buf) == |buf| + |s| - |Unread(s, buf)|
    ensures Assemble(s, buf).Some? ==> |Assemble(s, buf).value| <= MAX_HANDSHAKE_BYTES
    decreases |s|
  {
    match TakeRecord(s)
    case None =>
    case Some(record) =>
      var r := TakenIsEncoded(s);
      var grown := buf + record.value;
      if !OverCap(grown) && !Complete(grown) {
        PeakBound(record.rest, grown);
      }
  }

  /** The last record of `rs` takes a buffer that was still waiting over the cap. */
  ghost predicate Overflows(buf: bytes, rs: seq<Record>) {
    && rs != [] && ValidRecords(rs)
    && !Complete(buf + Payload(rs[..|rs| - 1])) && !OverCap(buf + Payload(rs[..|rs| - 1]))
    && |buf + Payload(rs)| > MAX_HANDSHAKE_BYTES
  }

  lemma OverflowsSplit(buf: bytes, rs: seq<Record>)
    requires rs != [] && ValidRecords(rs) && !Complete(buf) && !OverCap(buf)
    ensures var grown := buf + rs[0].fragment;
            Overflows(buf, rs) <==>
              if |rs| == 1 then |grown| > MAX_HANDSHAKE_BYTES
              else !Complete(grown) && !OverCap(grown) && Overflows(grown, rs[1..])
  {
    var grown, init := buf + rs[0].fragment, rs[..|rs| - 1];
    Assoc(buf, rs[0].fragment, Payload(rs[1..]));
    if |rs| == 1 {
      assert buf + Payload(init) == buf;
      assert grown + Payload(rs[1..]) == grown;
    } else {
      assert init[1..] == rs[1..][..|rs| - 2];
      Assoc(buf, rs[0].fragment, Payload(init[1..]));
      if Complete(grown) {
        CompleteIsMonotone(grown, Payload(init[1..]));
      }
    }
  }

  lemma {:induction false} OverflowIsHeld(s: bytes, buf: bytes, rs: seq<Record>)
    requires !Complete(buf) && !OverCap(buf) && Overflows(buf, rs) && Stream(rs) <= s
    ensures PeakFrom(s, buf) > MAX_HANDSHAKE_BYTES
    decreases |rs|
  {
    OverflowsSplit(buf, rs);
    var rest := TakeHeadOf(s, rs);
    if |rs| > 1 {
      OverflowIsHeld(rest, buf + rs[0].fragment, rs[1..]);
    }
  }

  lemma {:induction false} HeldIsOverflow(s: bytes, buf: bytes) returns (rs: seq<Record>)
    requires !Complete(buf) && !OverCap(buf) && PeakFrom(s, buf) > MAX_HANDSHAKE_BYTES
    ensures Overflows(buf, rs) && Stream(rs) <= s
    decreases |s|
  {
    var r := TakenIsEncoded(s);
    var grown, left := buf + r.fragment, TakeRecord(s).value.rest;
    if Complete(grown) || OverCap(grown) {
      rs := [r];
      OneRecord(buf, r, left);
    } else {
      var more := HeldIsOverflow(left, grown);
      rs := [r] + more;
      MoreRecords(buf, r, more, left[|Stream(more)|..]);
    }
    OverflowsSplit(buf, rs);
  }

  /** The cap is tested after the append, so the buffer does exceed it: exactly on the
      streams in which a record arrives that no longer fits behind a handshake that is
      still incomplete. */
  lemma PeakOverCapIff(s: bytes)
    ensures PeakFrom(s, []) > MAX_HANDSHAKE_BYTES <==> exists rs :: Overflows([], rs) && Stream(rs) <= s
  {
    if PeakFrom(s, []) > MAX_HANDSHAKE_BYTES {
      var rs := HeldIsOverflow(s, []);
    }
    if rs :| Overflows([], rs) && Stream(rs) <= s {
      OverflowIsHeld(s, [], rs);
    }
  }

  /** Four full records announcing 65532 body bytes are such a stream. It carries a
      complete handshake of exactly 64 KiB, and is refused for the bytes behind it. */
  lemma PeakOverCapExample() returns (rs: seq<Record>)
    ensures CompletesIn([], rs) && Need(Payload(rs)) == MAX_HANDSHAKE_BYTES
    ensures PeakFrom(Stream(rs), []) == 4 * MAX_RECORD_FRAGMENT > MAX_HANDSHAKE_BYTES
    ensures Reassemble(Stream(rs)).None?
  {
    var header := [1, 0x00, 0xff, 0xfc];
    var first := Record(0x0301, header + Zeros(MAX_RECORD_FRAGMENT - 4));
    var next := Record(0x0303, Zeros(MAX_RECORD_FRAGMENT));
    rs := [first, next, next, next];
    var b1 := PeakStep(rs, []);
    var b2 := PeakStep(rs[1..], b1);
    var b3 := PeakStep(rs[1..][1..], b2);
    var b4 := PeakStep(rs[1..][1..][1..], b3);
    CompletesInSplit(b3, rs[1..][1..][1..]);
    CompletesInSplit(b2, rs[1..][1..]);
    CompletesInSplit(b1, rs[1..]);
    CompletesInSplit([], rs);
    assert [] + Payload(rs) == Payload(rs);
    AssembleOnCompleting([], rs, []);
    assert Stream(rs) + [] == Stream(rs);
  }

  /** A full record in front of a handshake that fills the cap only makes it wait. */
  lemma PeakStep(rs: seq<Record>, buf: bytes) returns (grown: bytes)
    requires rs != [] && ValidRecords(rs) && |rs[0].fragment| == MAX_RECORD_FRAGMENT
    requires
      || (buf == [] && Need(rs[0].fragment) == MAX_HANDSHAKE_BYTES)
      || (|buf| >= 4 && Need(buf) == MAX_HANDSHAKE_BYTES)
    ensures grown == buf + rs[0].fragment && Need(grown) == MAX_HANDSHAKE_BYTES
    ensures PeakFrom(Stream(rs), buf) ==
            if |grown| >= MAX_HANDSHAKE_BYTES then |grown| else PeakFrom(Stream(rs[1..]), grown)
  {
    TakeHead(rs, []);
    assert Stream(rs) + [] == Stream(rs) && Stream(rs[1..]) + [] == Stream(rs[1..]);
    grown := buf + rs[0].fragment;
  }

  function Zeros(n: nat): (s: bytes)
    ensures |s| == n
  {
    seq(n, _ => 0)
  }
}
