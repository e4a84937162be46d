/** UTF-8 as the standard library checks it: byte patterns, and the proof that they are the
    encodings of Unicode scalar values (section 3 of RFC 3629). */
module Utf8 {
  import opened Wire

  predicate IsContinuation(b: byte) { 0x80 <= b < 0xc0 }

  /** Bytes of the well-formed UTF-8 sequence in front, or 0 when there is none. */
  function Utf8Width(s: bytes): (n: nat)
    ensures n <= |s|
  {
    if s == [] then 0
    else if s[0] < 0x80 then 1
    else if 0xc2 <= s[0] < 0xe0 then
      if |s| >= 2 && IsContinuation(s[1]) then 2 else 0
    else if 0xe0 <= s[0] < 0xf0 then
      if |s| >= 3 && IsContinuation(s[1]) && IsContinuation(s[2])
         && (s[0] == 0xe0 ==> s[1] >= 0xa0) && (s[0] == 0xed ==> s[1] < 0xa0) then 3 else 0
    else if 0xf0 <= s[0] < 0xf5 then
      if |s| >= 4 && IsContinuation(s[1]) && IsContinuation(s[2]) && IsContinuation(s[3])
         && (s[0] == 0xf0 ==> s[1] >= 0x90) && (s[0] == 0xf4 ==> s[1] < 0x90) then 4 else 0
    else 0
  }

  predicate IsUtf8(s: bytes)
    decreases |s|
  {
    s == [] || (Utf8Width(s) > 0 && IsUtf8(s[Utf8Width(s)..]))
  }

  lemma {:induction false} AsciiIsUtf8(s: bytes)
    requires forall b <- s :: b < 0x80
    ensures IsUtf8(s)
    decreases |s|
  {
    if s != [] {
      assert s[0] in s;
      assert forall b <- s[1..] :: b in s;
      AsciiIsUtf8(s[1..]);
    }
  }

  // ── Encodings of scalar values ───────────────────────────────────────────

  predicate IsScalar(c: nat) { c < 0xd800 || 0xe000 <= c < 0x11_0000 }

  function EncodeScalar(c: nat): (s: bytes)
    requires IsScalar(c)
    ensures 1 <= |s| <= 4
  {
    if c < 0x80 then [c]
    else if c < 0x800 then [0xc0 + c / 64, 0x80 + c % 64]
    else if c < 0x1_0000 then [0xe0 + c / 4096, 0x80 + c / 64 % 64, 0x80 + c % 64]
    else [0xf0 + c / 26_2144, 0x80 + c / 4096 % 64, 0x80 + c / 64 % 64, 0x80 + c % 64]
  }

  predicate AllScalars(cs: seq<nat>) { forall c <- cs :: IsScalar(c) }

  function EncodeAll(cs: seq<nat>): bytes
    requires AllScalars(cs)
  {
    if cs == [] then [] else EncodeScalar(cs[0]) + EncodeAll(cs[1..])
  }

  /** `s` is the encoding of these characters. */
  ghost predicate Encodes(s: bytes, cs: seq<nat>) { AllScalars(cs) && s == EncodeAll(cs) }

  lemma WidthOfEncoded(c: nat, rest: bytes)
    requires IsScalar(c)
    ensures Utf8Width(EncodeScalar(c) + rest) == |EncodeScalar(c)|
  {
    var s := EncodeScalar(c) + rest;
    assert forall i | 0 <= i < |EncodeScalar(c)| :: s[i] == EncodeScalar(c)[i];
  }

  lemma FrontIsEncoded(s: bytes) returns (c: nat)
    requires Utf8Width(s) > 0
    ensures IsScalar(c) && s[..Utf8Width(s)] == EncodeScalar(c)
  {
    var w := Utf8Width(s);
    if w == 1 {
      c := s[0];
    } else if w == 2 {
      var a: int, b: int := s[0], s[1];
      c := (a - 0xc0) * 64 + (b - 0x80);
    } else if w == 3 {
      c := ThreeBytes(s[0] - 0xe0, s[1] - 0x80, s[2] - 0x80);
    } else {
      c := FourBytes(s[0] - 0xf0, s[1] - 0x80, s[2] - 0x80, s[3] - 0x80);
    }
  }

  lemma ThreeBytes(a: int, b: int, d: int) returns (c: nat)
    requires 0 <= a < 16 && 0 <= b < 64 && 0 <= d < 64
    ensures c == a * 4096 + b * 64 + d && c / 4096 == a && c / 64 % 64 == b && c % 64 == d
  {
    c := a * 4096 + b * 64 + d;
    assert c / 64 == a * 64 + b;
  }

  lemma FourBytes(a: int, b: int, d: int, e: int) returns (c: nat)
    requires 0 <= a < 8 && 0 <= b < 64 && 0 <= d < 64 && 0 <= e < 64
    ensures c == a * 26_2144 + b * 4096 + d * 64 + e
    ensures c / 26_2144 == a && c / 4096 % 64 == b && c / 64 % 64 == d && c % 64 == e
  {
    c := a * 26_2144 + b * 4096 + d * 64 + e;
    assert c / 64 == a * 4096 + b * 64 + d;
    assert c / 4096 == a * 64 + b;
  }

  /** The byte patterns accept exactly the encodings of sequences of scalar values. */
  lemma {:induction false} Utf8Iff(s: bytes)
    ensures IsUtf8(s) <==> exists cs :: Encodes(s, cs)
  {
    if IsUtf8(s) {
      var cs := Decoded(s);
    }
    if cs :| Encodes(s, cs) {
      EncodedIsUtf8(cs);
    }
  }

  lemma EncodesMore(c: nat, s: bytes, cs: seq<nat>)
    requires IsScalar(c) && Encodes(s, cs)
    ensures Encodes(EncodeScalar(c) + s, [c] + cs)
  {
    hide EncodeScalar;
    assert ([c] + cs)[1..] == cs;
  }

  lemma {:induction false} Decoded(s: bytes) returns (cs: seq<nat>)
    requires IsUtf8(s)
    ensures Encodes(s, cs)
    decreases |s|
  {
    hide Utf8Width, EncodeScalar, Encodes, IsScalar;
    cs := [];
    if s == [] {
      NothingEncoded();
    } else {
      var w := Utf8Width(s);
      var c := FrontIsEncoded(s);
      cs := Decoded(s[w..]);
      EncodesMore(c, s[w..], cs);
      assert s == s[..w] + s[w..];
      cs := [c] + cs;
    }
  }

  lemma NothingEncoded()
    ensures Encodes([], [])
  {
  }

  lemma {:induction false} EncodedIsUtf8(cs: seq<nat>)
    requires AllScalars(cs)
    ensures IsUtf8(EncodeAll(cs))
  {
    if cs != [] {
      hide Utf8Width, EncodeScalar;
      var s, later := EncodeAll(cs), EncodeAll(cs[1..]);
      EncodedIsUtf8(cs[1..]);
      WidthOfEncoded(cs[0], later);
      assert s[|EncodeScalar(cs[0])|..] == later;
    }
  }
}
