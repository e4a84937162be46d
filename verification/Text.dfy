/** Separated text and decimal numbers, with the readers that undo them. */
module Text {

  // ── Splitting at a separator ─────────────────────────────────────────────

  /** Position of the first separator, or the length when there is none. */
  function FirstAt<T(==)>(s: seq<T>, sep: T): (i: nat)
    ensures i <= |s|
  {
    if s == [] || s[0] == sep then 0 else 1 + FirstAt(s[1..], sep)
  }

  lemma {:induction false} FirstAtIsFirst<T>(s: seq<T>, sep: T)
    ensures var i := FirstAt(s, sep);
            && (forall k | 0 <= k < i :: s[k] != sep)
            && (i < |s| ==> s[i] == sep)
  {
    if s != [] && s[0] != sep {
      FirstAtIsFirst(s[1..], sep);
      forall k | 0 <= k < FirstAt(s, sep) ensures s[k] != sep {
        if k > 0 {
          assert s[k] == s[1..][k - 1];
        }
      }
    }
  }

  function Split<T(==)>(s: seq<T>, sep: T): (pieces: seq<seq<T>>)
    ensures pieces != []
    decreases |s|
  {
    var i := FirstAt(s, sep);
    if i == |s| then [s] else [s[..i]] + Split(s[i + 1..], sep)
  }

  function Join<T>(pieces: seq<seq<T>>, sep: T): seq<T> {
    if pieces == [] then []
    else if |pieces| == 1 then pieces[0]
    else pieces[0] + ([sep] + Join(pieces[1..], sep))
  }

  lemma FirstAtOf<T>(piece: seq<T>, rest: seq<T>, sep: T)
    requires sep !in piece
    ensures FirstAt(piece + ([sep] + rest), sep) == |piece|
    ensures FirstAt(piece, sep) == |piece|
  {
    var s := piece + ([sep] + rest);
    FirstAtIsFirst(s, sep);
    FirstAtIsFirst(piece, sep);
    assert s[|piece|] == sep;
    assert forall k | 0 <= k < |piece| :: s[k] == piece[k];
  }

  lemma SplitAfter<T>(piece: seq<T>, rest: seq<T>, sep: T)
    requires sep !in piece
    ensures Split(piece + ([sep] + rest), sep) == [piece] + Split(rest, sep)
  {
    var s := piece + ([sep] + rest);
    FirstAtOf(piece, rest, sep);
    assert s[..|piece|] == piece && s[|piece| + 1..] == rest;
  }

  /** Splitting undoes joining. */
  lemma {:induction false} SplitOfJoin<T>(pieces: seq<seq<T>>, sep: T)
    requires pieces != []
    requires forall p <- pieces :: sep !in p
    ensures Split(Join(pieces, sep), sep) == pieces
  {
    if |pieces| == 1 {
      FirstAtOf(pieces[0], [], sep);
    } else {
      SplitAfter(pieces[0], Join(pieces[1..], sep), sep);
      SplitOfJoin(pieces[1..], sep);
    }
  }

  /** Joining undoes splitting, and no piece holds a separator. */
  lemma {:induction false} JoinOfSplit<T>(s: seq<T>, sep: T)
    ensures Join(Split(s, sep), sep) == s
    ensures forall p <- Split(s, sep) :: sep !in p
    decreases |s|
  {
    var i := FirstAt(s, sep);
    FirstAtIsFirst(s, sep);
    if i < |s| {
      var rest := s[i + 1..];
      JoinOfSplit(rest, sep);
      var later := Split(rest, sep);
      assert Split(s, sep) == [s[..i]] + later;
      JoinPrepend(s[..i], later, sep);
      assert s == s[..i] + ([sep] + rest);
    }
  }

  lemma JoinPrepend<T>(piece: seq<T>, later: seq<seq<T>>, sep: T)
    requires later != []
    ensures Join([piece] + later, sep) == piece + ([sep] + Join(later, sep))
  {
    assert ([piece] + later)[1..] == later;
  }

  // ── Decimal numbers ──────────────────────────────────────────────────────

  predicate IsDigit(c: char) { '0' <= c <= '9' }

  function Digit(n: nat): (c: char)
    requires n < 10
    ensures IsDigit(c)
  {
    '0' + n as char
  }

  function DigitValue(c: char): nat
    requires IsDigit(c)
  {
    c as int - '0' as int
  }

  function Decimal(n: nat): (s: string)
    ensures s != [] && forall c <- s :: IsDigit(c)
  {
    if n < 10 then [Digit(n)] else Decimal(n / 10) + [Digit(n % 10)]
  }

  function Value(s: string): nat
    requires forall c <- s :: IsDigit(c)
  {
    if s == [] then 0
    else
      var last := s[|s| - 1];
      assert last in s;
      10 * Value(s[..|s| - 1]) + DigitValue(last)
  }

  lemma {:induction false} ValueOfDecimal(n: nat)
    ensures Value(Decimal(n)) == n
  {
    if n < 10 {
      assert Decimal(n)[..0] == [];
    } else {
      ValueOfDecimal(n / 10);
      assert Decimal(n)[..|Decimal(n)| - 1] == Decimal(n / 10);
    }
  }

  // ── Lists of numbers ─────────────────────────────────────────────────────

  function Decimals(xs: seq<nat>): (pieces: seq<string>)
    ensures |pieces| == |xs|
    ensures forall i | 0 <= i < |xs| :: pieces[i] == Decimal(xs[i])
  {
    seq(|xs|, i requires 0 <= i < |xs| => Decimal(xs[i]))
  }

  /** The numbers in decimal with a separator between neighbours. */
  function JoinDecimal(xs: seq<nat>, sep: char): string {
    Join(Decimals(xs), sep)
  }

  predicate IsNumberList(s: string, sep: char) {
    s == [] || forall p <- Split(s, sep), c <- p :: IsDigit(c)
  }

  /** Reads a list back; the empty text is the empty list. */
  function ReadDecimals(s: string, sep: char): seq<nat>
    requires IsNumberList(s, sep)
  {
    if s == [] then []
    else
      var pieces := Split(s, sep);
      seq(|pieces|, i requires 0 <= i < |pieces| => assert pieces[i] in pieces; Value(pieces[i]))
  }

  /** A printed list holds digits and separators only, and reads back as the list. */
  lemma ReadOfJoinDecimal(xs: seq<nat>, sep: char)
    requires !IsDigit(sep)
    ensures IsNumberList(JoinDecimal(xs, sep), sep)
    ensures ReadDecimals(JoinDecimal(xs, sep), sep) == xs
    ensures forall c <- JoinDecimal(xs, sep) :: IsDigit(c) || c == sep
  {
    var pieces := Decimals(xs);
    JoinChars(pieces, sep);
    if xs != [] {
      SplitOfJoin(pieces, sep);
      JoinNonEmpty(pieces, sep);
      forall i | 0 <= i < |xs| ensures Value(pieces[i]) == xs[i] {
        ValueOfDecimal(xs[i]);
      }
    }
  }

  lemma {:induction false} JoinChars(pieces: seq<string>, sep: char)
    requires forall p <- pieces, c <- p :: IsDigit(c)
    ensures forall c <- Join(pieces, sep) :: IsDigit(c) || c == sep
  {
    if |pieces| == 1 {
      assert pieces[0] in pieces;
    } else if |pieces| > 1 {
      assert pieces[0] in pieces;
      JoinChars(pieces[1..], sep);
    }
  }

  lemma JoinNonEmpty<T>(pieces: seq<seq<T>>, sep: T)
    requires pieces != [] && pieces[0] != []
    ensures Join(pieces, sep) != []
  {
  }

  /** Printing is injective. */
  lemma JoinDecimalInjective(xs: seq<nat>, ys: seq<nat>, sep: char)
    requires !IsDigit(sep) && JoinDecimal(xs, sep) == JoinDecimal(ys, sep)
    ensures xs == ys
  {
    ReadOfJoinDecimal(xs, sep);
    ReadOfJoinDecimal(ys, sep);
  }

  /** One more number at the end of a printed list. */
  lemma {:induction false} JoinAppend<T>(pieces: seq<seq<T>>, last: seq<T>, sep: T)
    ensures Join(pieces + [last], sep) == if pieces == [] then last else Join(pieces, sep) + ([sep] + last)
  {
    if |pieces| >= 1 {
      assert (pieces + [last])[1..] == pieces[1..] + [last];
      JoinAppend(pieces[1..], last, sep);
      if |pieces| == 1 {
        assert pieces[1..] == [];
      }
    }
  }
}
