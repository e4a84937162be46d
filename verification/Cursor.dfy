/** The bounds-checked cursor of `sni.rs`: a byte slice and a position that only
    successful reads advance, except that a length-prefixed read that fails keeps the
    prefix it has already consumed. */
module Cursors {
  import opened Wire

  class Cursor {
    const input: bytes
    var pos: nat

    ghost predicate Valid()
      reads this
    {
      pos <= |input|
    }

    /** The unread bytes. */
    ghost function Rest(): (s: bytes)
      requires Valid()
      reads this
      ensures |s| == |input| - pos
    {
      input[pos..]
    }

    constructor (input: bytes)
      ensures Valid() && this.input == input && Rest() == input && pos == 0
    {
      this.input, pos := input, 0;
    }

    function Remaining(): (n: nat)
      requires Valid()
      reads this
      ensures n == |Rest()|
    {
      |input| - pos
    }

    method ReadSlice(n: nat) returns (r: Option<bytes>)
      requires Valid()
      modifies this`pos
      ensures Valid()
      ensures r.None? <==> Take(old(Rest()), n).None?
      ensures r.Some? ==> Take(old(Rest()), n) == Some(Taken(r.value, Rest()))
      ensures r.None? ==> pos == old(pos)
    {
      var end := pos + n;
      if end > |input| {
        return None;
      }
      r := Some(input[pos..end]);
      assert input[pos..][..n] == input[pos..end] && input[pos..][n..] == input[end..];
      pos := end;
    }

    method ReadU8() returns (r: Option<byte>)
      requires Valid()
      modifies this`pos
      ensures Valid()
      ensures r.None? <==> TakeU8(old(Rest())).None?
      ensures r.Some? ==> TakeU8(old(Rest())) == Some(Taken(r.value, Rest()))
      ensures r.None? ==> pos == old(pos)
    {
      if pos >= |input| {
        return None;
      }
      r := Some(input[pos]);
      assert input[pos..][1..] == input[pos + 1..];
      pos := pos + 1;
    }

    method ReadU16() returns (r: Option<u16>)
      requires Valid()
      modifies this`pos
      ensures Valid()
      ensures r.None? <==> TakeU16(old(Rest())).None?
      ensures r.Some? ==> TakeU16(old(Rest())) == Some(Taken(r.value, Rest()))
      ensures r.None? ==> pos == old(pos)
    {
      var s := ReadSlice(2);
      if s.None? {
        return None;
      }
      r := Some(Be16(s.value[0], s.value[1]));
    }

    method ReadU24() returns (r: Option<u24>)
      requires Valid()
      modifies this`pos
      ensures Valid()
      ensures r.None? <==> TakeU24(old(Rest())).None?
      ensures r.Some? ==> TakeU24(old(Rest())) == Some(Taken(r.value, Rest()))
      ensures r.None? ==> pos == old(pos)
    {
      var s := ReadSlice(3);
      if s.None? {
        return None;
      }
      r := Some(Be24(s.value[0], s.value[1], s.value[2]));
    }

    method ReadU8Prefixed() returns (r: Option<bytes>)
      requires Valid()
      modifies this`pos
      ensures Valid()
      ensures r.None? <==> TakeP8(old(Rest())).None?
      ensures r.Some? ==> TakeP8(old(Rest())) == Some(Taken(r.value, Rest()))
      ensures r.None? ==> pos == old(pos) + if old(Rest()) == [] then 0 else 1
    {
      var n := ReadU8();
      if n.None? {
        return None;
      }
      r := ReadSlice(n.value);
    }

    method ReadU16Prefixed() returns (r: Option<bytes>)
      requires Valid()
      modifies this`pos
      ensures Valid()
      ensures r.None? <==> TakeP16(old(Rest())).None?
      ensures r.Some? ==> TakeP16(old(Rest())) == Some(Taken(r.value, Rest()))
      ensures r.None? ==> pos == old(pos) + if |old(Rest())| < 2 then 0 else 2
    {
      var n := ReadU16();
      if n.None? {
        return None;
      }
      r := ReadSlice(n.value);
    }
  }
}
