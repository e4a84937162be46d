/** Big-endian integers and length-prefixed fields of the TLS presentation
    language, as pure functions from the unread bytes to a value and what is left. */
module Wire {

  type byte = b: int | 0 <= b < 0x100
  type u16 = n: int | 0 <= n < 0x1_0000
  type u24 = n: int | 0 <= n < 0x100_0000
  type bytes = seq<byte>

  datatype Option<+T> = None | Some(value: T) {
    predicate IsFailure() { None? }

    function PropagateFailure<U>(): Option<U>
      requires None?
    {
      None
    }

    function Extract(): T
      requires Some?
    {
      value
    }
  }

  lemma Assoc<T>(a: seq<T>, b: seq<T>, c: seq<T>)
    ensures (a + b) + c == a + (b + c)
  {
  }

  /** A value read from the front of a byte string, and the unread remainder. */
  datatype Taken<+T> = Taken(value: T, rest: bytes)

  function Be16(hi: byte, lo: byte): u16 { hi * 0x100 + lo }

  function Be24(hi: byte, mid: byte, lo: byte): u24 { hi * 0x1_0000 + mid * 0x100 + lo }

  function PutU16(n: u16): (s: bytes)
    ensures |s| == 2 && Be16(s[0], s[1]) == n
  {
    [n / 0x100, n % 0x100]
  }

  function PutU24(n: u24): (s: bytes)
    ensures |s| == 3 && Be24(s[0], s[1], s[2]) == n
  {
    [n / 0x1_0000, n / 0x100 % 0x100, n % 0x100]
  }

  // ── Readers ──────────────────────────────────────────────────────────────

  function Take(s: bytes, n: nat): Option<Taken<bytes>> {
    if n <= |s| then Some(Taken(s[..n], s[n..])) else None
  }

  function TakeU8(s: bytes): Option<Taken<byte>> {
    if |s| >= 1 then Some(Taken(s[0], s[1..])) else None
  }

  function TakeU16(s: bytes): Option<Taken<u16>> {
    if |s| >= 2 then Some(Taken(Be16(s[0], s[1]), s[2..])) else None
  }

  function TakeU24(s: bytes): Option<Taken<u24>> {
    if |s| >= 3 then Some(Taken(Be24(s[0], s[1], s[2]), s[3..])) else None
  }

  /** A field with a one-byte length in front. */
  function TakeP8(s: bytes): Option<Taken<bytes>> {
    var n :- TakeU8(s);
    Take(n.rest, n.value)
  }

  /** A field with a two-byte length in front. */
  function TakeP16(s: bytes): Option<Taken<bytes>> {
    var n :- TakeU16(s);
    Take(n.rest, n.value)
  }

  // ── Printers ─────────────────────────────────────────────────────────────

  function P8(x: bytes): bytes
    requires |x| < 0x100
  {
    [|x|] + x
  }

  function P16(x: bytes): bytes
    requires |x| < 0x1_0000
  {
    PutU16(|x|) + x
  }

  /** A two-byte integer is read off the front exactly when it was printed there. */
  lemma TakeU16Iff(s: bytes, n: u16, rest: bytes)
    ensures TakeU16(s) == Some(Taken(n, rest)) <==> s == PutU16(n) + rest
  {
    if TakeU16(s) == Some(Taken(n, rest)) {
      assert s == s[..2] + s[2..];
      assert PutU16(n) == s[..2];
    }
  }

  lemma TakeU24Iff(s: bytes, n: u24, rest: bytes)
    ensures TakeU24(s) == Some(Taken(n, rest)) <==> s == PutU24(n) + rest
  {
    if TakeU24(s) == Some(Taken(n, rest)) {
      var hi: int, mid: int := s[0], s[1];
      assert n / 0x100 == hi * 0x100 + mid;
      assert PutU24(n) == [s[0], s[1], s[2]];
      assert s == [s[0], s[1], s[2]] + s[3..];
    }
    if s == PutU24(n) + rest {
      assert s[3..] == rest;
    }
  }

  lemma TakeIff(s: bytes, x: bytes, rest: bytes)
    ensures Take(s, |x|) == Some(Taken(x, rest)) <==> s == x + rest
  {
    if s == x + rest {
      assert s[..|x|] == x && s[|x|..] == rest;
    }
  }

  /** Length-prefix framing is a bijection: the reader returns (x, rest) exactly on the
      bytes that print x in front of rest. */
  lemma TakeP8Iff(s: bytes, x: bytes, rest: bytes)
    ensures TakeP8(s) == Some(Taken(x, rest)) <==> |x| < 0x100 && s == P8(x) + rest
  {
    if TakeP8(s) == Some(Taken(x, rest)) {
      TakeIff(s[1..], x, rest);
      assert s == [s[0]] + s[1..];
    }
    if |x| < 0x100 && s == P8(x) + rest {
      assert s[1..] == x + rest;
      TakeIff(s[1..], x, rest);
    }
  }

  lemma TakeP16Iff(s: bytes, x: bytes, rest: bytes)
    ensures TakeP16(s) == Some(Taken(x, rest)) <==> |x| < 0x1_0000 && s == P16(x) + rest
  {
    if TakeP16(s) == Some(Taken(x, rest)) {
      TakeIff(s[2..], x, rest);
      TakeU16Iff(s, |x|, s[2..]);
      assert s == PutU16(|x|) + (x + rest);
    }
    if |x| < 0x1_0000 && s == P16(x) + rest {
      assert s == PutU16(|x|) + (x + rest);
      TakeU16Iff(s, |x|, x + rest);
      TakeIff(x + rest, x, rest);
    }
  }

  /** What a framed read returns depends only on the printed field in front. */
  lemma TakeP8Prefix(s: bytes, x: bytes)
    ensures TakeP8(s).Some? && TakeP8(s).value.value == x <==> |x| < 0x100 && P8(x) <= s
  {
    if TakeP8(s).Some? && TakeP8(s).value.value == x {
      TakeP8Iff(s, x, TakeP8(s).value.rest);
    }
    if |x| < 0x100 && P8(x) <= s {
      var rest := s[|P8(x)|..];
      assert s == P8(x) + rest;
      TakeP8Iff(s, x, rest);
    }
  }

  lemma TakeP16Prefix(s: bytes, x: bytes)
    ensures TakeP16(s).Some? && TakeP16(s).value.value == x <==> |x| < 0x1_0000 && P16(x) <= s
  {
    if TakeP16(s).Some? && TakeP16(s).value.value == x {
      TakeP16Iff(s, x, TakeP16(s).value.rest);
    }
    if |x| < 0x1_0000 && P16(x) <= s {
      var rest := s[|P16(x)|..];
      assert s == P16(x) + rest;
      TakeP16Iff(s, x, rest);
    }
  }

  // ── Lists of two-byte codepoints ─────────────────────────────────────────

  function PutU16s(xs: seq<u16>): (s: bytes)
    ensures |s| == 2 * |xs|
  {
    if xs == [] then [] else PutU16(xs[0]) + PutU16s(xs[1..])
  }

  /** The codepoints of an even-length byte string. */
  function U16s(s: bytes): (xs: seq<u16>)
    requires |s| % 2 == 0
    ensures |s| == 2 * |xs|
  {
    if s == [] then [] else [Be16(s[0], s[1])] + U16s(s[2..])
  }

  /** Reading codepoints undoes printing them... */
  lemma {:induction false} U16sOfPutU16s(xs: seq<u16>)
    ensures U16s(PutU16s(xs)) == xs
  {
    if xs != [] {
      var s := PutU16s(xs);
      assert s[2..] == PutU16s(xs[1..]);
      U16sOfPutU16s(xs[1..]);
    }
  }

  /** ...and printing undoes reading, so even-length byte strings and codepoint lists
      are in bijection. */
  lemma {:induction false} PutU16sOfU16s(s: bytes)
    requires |s| % 2 == 0
    ensures PutU16s(U16s(s)) == s
  {
    if s != [] {
      PutU16sOfU16s(s[2..]);
      TakeU16Iff(s, Be16(s[0], s[1]), s[2..]);
      assert U16s(s)[1..] == U16s(s[2..]);
    }
  }

  lemma U16sIff(s: bytes, xs: seq<u16>)
    ensures (|s| % 2 == 0 && U16s(s) == xs) <==> s == PutU16s(xs)
  {
    U16sOfPutU16s(xs);
    if |s| % 2 == 0 {
      PutU16sOfU16s(s);
    }
  }
}
