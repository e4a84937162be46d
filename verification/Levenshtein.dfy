/** Edit distance: the recurrence, the shortest edit script, the metric laws, and the
    two-row program that computes it. */
module Levenshtein {

  function Min(x: nat, y: nat): nat { if x <= y then x else y }

  function Cost(x: char, y: char): nat { if x == y then 0 else 1 }

  function Init(s: string): string
    requires s != []
  {
    s[..|s| - 1]
  }

  function Last(s: string): char
    requires s != []
  {
    s[|s| - 1]
  }

  /** The recurrence on last characters. */
  function Lev(a: string, b: string): nat
    decreases |a| + |b|
  {
    if a == [] then |b|
    else if b == [] then |a|
    else
      Min(Min(Lev(Init(a), b) + 1, Lev(a, Init(b)) + 1), Lev(Init(a), Init(b)) + Cost(Last(a), Last(b)))
  }

  // ── The two-row program ──────────────────────────────────────────────────

  /** The row holds the distances from `front` to every prefix of `b` up to `upTo`. */
  ghost predicate RowUpTo(row: seq<nat>, front: string, b: string, upTo: nat) {
    upTo <= |b| < |row| && forall j | 0 <= j <= upTo :: row[j] == Lev(front, b[..j])
  }

  lemma LevAppend(p: string, x: char, q: string, y: char)
    ensures Lev(p + [x], q + [y]) == Min(Min(Lev(p, q + [y]) + 1, Lev(p + [x], q) + 1), Lev(p, q) + Cost(x, y))
  {
    hide Lev;
    var a, b := p + [x], q + [y];
    assert Init(a) == p && Last(a) == x;
    assert Init(b) == q && Last(b) == y;
    assert a != [] && b != [];
    LevUnfold(a, b);
  }

  lemma LevUnfold(a: string, b: string)
    requires a != [] && b != []
    ensures Lev(a, b) ==
            Min(Min(Lev(Init(a), b) + 1, Lev(a, Init(b)) + 1), Lev(Init(a), Init(b)) + Cost(Last(a), Last(b)))
  {
    hide Min, Cost, Init, Last;
  }

  /** The next entry of the row below from its three neighbours. */
  lemma LevStep(a: string, i: nat, b: string, j: nat, prev: seq<nat>, curr: seq<nat>)
    requires i < |a| && j < |b|
    requires RowUpTo(prev, a[..i], b, |b|) && RowUpTo(curr, a[..i + 1], b, j)
    ensures var next := Min(Min(prev[j + 1] + 1, curr[j] + 1), prev[j] + Cost(a[i], b[j]));
            RowUpTo(curr[j + 1 := next], a[..i + 1], b, j + 1)
  {
    hide Lev;
    assert a[..i + 1] == a[..i] + [a[i]] && b[..j + 1] == b[..j] + [b[j]];
    LevAppend(a[..i], a[i], b[..j], b[j]);
  }

  lemma FirstEntry(row: seq<nat>, front: string, b: string)
    requires |b| < |row| && row[0] == |front|
    ensures RowUpTo(row, front, b, 0)
  {
  }

  method FillRow(prev: array<nat>, curr: array<nat>, a: string, i: nat, b: string)
    requires prev != curr && prev.Length == curr.Length == |b| + 1 && i < |a|
    requires RowUpTo(prev[..], a[..i], b, |b|)
    modifies curr
    ensures RowUpTo(curr[..], a[..i + 1], b, |b|)
  {
    hide RowUpTo;
    curr[0] := i + 1;
    FirstEntry(curr[..], a[..i + 1], b);
    for j := 0 to |b|
      invariant RowUpTo(curr[..], a[..i + 1], b, j)
    {
      LevStep(a, i, b, j, prev[..], curr[..]);
      ghost var before := curr[..];
      var cost := Cost(a[i], b[j]);
      curr[j + 1] := Min(Min(prev[j + 1] + 1, curr[j] + 1), prev[j] + cost);
      assert curr[..] == before[j + 1 := curr[j + 1]];
    }
  }

  method Distance(a: string, b: string) returns (d: nat)
    ensures d == Lev(a, b)
  {
    if a == [] {
      return |b|;
    }
    if b == [] {
      return |a|;
    }
    var prev := new nat[|b| + 1](j => j);
    var curr := new nat[|b| + 1](_ => 0);
    assert a[..0] == [];
    for i := 0 to |a|
      invariant fresh(prev) && fresh(curr) && prev != curr
      invariant prev.Length == curr.Length == |b| + 1
      invariant RowUpTo(prev[..], a[..i], b, |b|)
    {
      FillRow(prev, curr, a, i, b);
      prev, curr := curr, prev;
    }
    assert a[..|a|] == a && b[..|b|] == b;
    assert prev[..][|b|] == Lev(a, b);
    return prev[|b|];
  }

  // ── Edit scripts ─────────────────────────────────────────────────────────

  /** One single-character edit at a position. */
  datatype Edit =
    | Insert(at: nat, c: char)
    | Delete(at: nat)
    | Substitute(at: nat, c: char)

  predicate Applies(s: string, e: Edit) {
    if e.Insert? then e.at <= |s| else e.at < |s|
  }

  function Apply(s: string, e: Edit): string
    requires Applies(s, e)
  {
    match e
    case Insert(at, c) => s[..at] + [c] + s[at..]
    case Delete(at) => s[..at] + s[at + 1..]
    case Substitute(at, c) => s[..at] + [c] + s[at + 1..]
  }

  /** The script turns `a` into `b`, one edit after the other. */
  ghost predicate Transforms(a: string, script: seq<Edit>, b: string)
    decreases |script|
  {
    if script == [] then a == b
    else Applies(a, script[0]) && Transforms(Apply(a, script[0]), script[1..], b)
  }

  // ── Metric laws ──────────────────────────────────────────────────────────

  lemma {:induction false} LevSymmetric(a: string, b: string)
    ensures Lev(a, b) == Lev(b, a)
    decreases |a| + |b|
  {
    if a != [] && b != [] {
      LevSymmetric(Init(a), b);
      LevSymmetric(a, Init(b));
      LevSymmetric(Init(a), Init(b));
    }
  }

  lemma {:induction false} LevZeroIff(a: string, b: string)
    ensures Lev(a, b) == 0 <==> a == b
    decreases |a| + |b|
  {
    if a != [] && b != [] {
      LevZeroIff(Init(a), Init(b));
      assert a == Init(a) + [Last(a)] && b == Init(b) + [Last(b)];
    }
  }

  /** The distance lies between the difference of the lengths and the longer length. */
  lemma {:induction false} LevBounds(a: string, b: string)
    ensures |a| - |b| <= Lev(a, b) && |b| - |a| <= Lev(a, b)
    ensures Lev(a, b) <= |a| || Lev(a, b) <= |b|
    decreases |a| + |b|
  {
    if a != [] && b != [] {
      LevBounds(Init(a), b);
      LevBounds(a, Init(b));
      LevBounds(Init(a), Init(b));
    }
  }

  lemma {:induction false} Triangle(a: string, b: string, c: string)
    ensures Lev(a, c) <= Lev(a, b) + Lev(b, c)
    decreases |a| + |b| + |c|
  {
    LevBounds(a, c);
    LevBounds(a, b);
    LevBounds(b, c);
    if a != [] && b != [] && c != [] {
      Triangle(Init(a), b, c);
      Triangle(a, b, Init(c));
      Triangle(a, Init(b), c);
      Triangle(a, Init(b), Init(c));
      Triangle(Init(a), Init(b), c);
      Triangle(Init(a), Init(b), Init(c));
    }
  }

  // ── The distance is the length of a shortest script ──────────────────────

  lemma {:induction false} SameSuffix(u: string, v: string, w: string)
    ensures Lev(u + w, v + w) <= Lev(u, v)
    decreases |w|
  {
    if w == [] {
      assert u + w == u && v + w == v;
    } else {
      SameSuffix(u, v, Init(w));
      assert Init(u + w) == u + Init(w) && Init(v + w) == v + Init(w);
    }
  }

  lemma OneEditIsNear(s: string, e: Edit)
    requires Applies(s, e)
    ensures Lev(s, Apply(s, e)) <= 1
  {
    hide Lev;
    var p := s[..e.at];
    match e
    case Insert(at, c) =>
      NearPrefix(p, c, c);
      assert s == p + s[at..];
      SameSuffix(p, p + [c], s[at..]);
    case Delete(at) =>
      NearPrefix(p, s[at], s[at]);
      assert s == (p + [s[at]]) + s[at + 1..];
      SameSuffix(p + [s[at]], p, s[at + 1..]);
    case Substitute(at, c) =>
      NearPrefix(p, s[at], c);
      assert s == (p + [s[at]]) + s[at + 1..];
      SameSuffix(p + [s[at]], p + [c], s[at + 1..]);
  }

  lemma NearPrefix(p: string, x: char, y: char)
    ensures Lev(p, p + [x]) <= 1 && Lev(p + [x], p) <= 1 && Lev(p + [x], p + [y]) <= 1
  {
    LevZeroIff(p, p);
    assert Init(p + [x]) == p && Init(p + [y]) == p;
  }

  /** No script is shorter than the distance. */
  lemma {:induction false} NoShorterScript(a: string, script: seq<Edit>, b: string)
    requires Transforms(a, script, b)
    ensures Lev(a, b) <= |script|
    decreases |script|
  {
    if script == [] {
      LevZeroIff(a, b);
    } else {
      var next := Apply(a, script[0]);
      OneEditIsNear(a, script[0]);
      NoShorterScript(next, script[1..], b);
      Triangle(a, next, b);
    }
  }

  lemma {:induction false} TransformsThen(a: string, script: seq<Edit>, b: string, e: Edit)
    requires Transforms(a, script, b) && Applies(b, e)
    ensures Transforms(a, script + [e], Apply(b, e))
    decreases |script|
  {
    if script != [] {
      TransformsThen(Apply(a, script[0]), script[1..], b, e);
      assert (script + [e])[1..] == script[1..] + [e];
    }
  }

  /** A script works just as well in front of a character it does not touch. */
  lemma {:induction false} TransformsInFront(a: string, script: seq<Edit>, b: string, last: char)
    requires Transforms(a, script, b)
    ensures Transforms(a + [last], script, b + [last])
    decreases |script|
  {
    if script != [] {
      var e := script[0];
      assert Apply(a + [last], e) == Apply(a, e) + [last];
      TransformsInFront(Apply(a, e), script[1..], b, last);
    }
  }

  lemma InsertLast(a: string, script: seq<Edit>, p: string, y: char)
    requires Transforms(a, script, p)
    ensures Transforms(a, script + [Insert(|p|, y)], p + [y])
  {
    TransformsThen(a, script, p, Insert(|p|, y));
    assert Apply(p, Insert(|p|, y)) == p + [y];
  }

  lemma DeleteLast(p: string, script: seq<Edit>, b: string, x: char)
    requires Transforms(p, script, b)
    ensures Transforms(p + [x], script + [Delete(|b|)], b)
  {
    TransformsInFront(p, script, b, x);
    TransformsThen(p + [x], script, b + [x], Delete(|b|));
    assert Apply(b + [x], Delete(|b|)) == b;
  }

  lemma SubstituteLast(p: string, script: seq<Edit>, q: string, x: char, y: char)
    requires Transforms(p, script, q)
    ensures Transforms(p + [x], script + [Substitute(|q|, y)], q + [y])
  {
    TransformsInFront(p, script, q, x);
    TransformsThen(p + [x], script, q + [x], Substitute(|q|, y));
    assert Apply(q + [x], Substitute(|q|, y)) == q + [y];
  }

  /** Some script is as short as the distance. */
  lemma {:induction false} ShortestScript(a: string, b: string) returns (script: seq<Edit>)
    ensures Transforms(a, script, b) && |script| == Lev(a, b)
    decreases |a| + |b|
  {
    hide Transforms, Apply;
    assert a != [] ==> Init(a) + [Last(a)] == a;
    assert b != [] ==> Init(b) + [Last(b)] == b;
    if a == [] && b == [] {
      script := [];
      NothingToDo();
    } else if a == [] || (b != [] && Lev(a, b) == Lev(a, Init(b)) + 1) {
      script := ShortestScript(a, Init(b));
      InsertLast(a, script, Init(b), Last(b));
      script := script + [Insert(|Init(b)|, Last(b))];
    } else if b == [] || Lev(a, b) == Lev(Init(a), b) + 1 {
      script := ShortestScript(Init(a), b);
      DeleteLast(Init(a), script, b, Last(a));
      script := script + [Delete(|b|)];
    } else {
      script := ShortestScript(Init(a), Init(b));
      if Last(a) == Last(b) {
        TransformsInFront(Init(a), script, Init(b), Last(a));
      } else {
        SubstituteLast(Init(a), script, Init(b), Last(a), Last(b));
        script := script + [Substitute(|Init(b)|, Last(b))];
      }
    }
  }

  lemma NothingToDo()
    ensures Transforms([], [], [])
  {
  }

  /** The computed number is exactly the length of a shortest script. */
  lemma LevIff(a: string, b: string, d: nat)
    ensures d == Lev(a, b) <==>
            && (exists script :: Transforms(a, script, b) && |script| == d)
            && (forall script | Transforms(a, script, b) :: d <= |script|)
  {
    var shortest := ShortestScript(a, b);
    forall script | Transforms(a, script, b) ensures Lev(a, b) <= |script| {
      NoShorterScript(a, script, b);
    }
  }
}
