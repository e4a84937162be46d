/** The typo-squat check: the earliest nearest brand within a threshold, unless the
    domain is itself a brand. */
module Typosquats {
  import opened Wire
  import opened Levenshtein
  import opened Risk

  function Lower(c: char): char {
    if 'A' <= c <= 'Z' then ((c as int) + 32) as char else c
  }

  predicate EqIgnoreAsciiCase(a: string, b: string) {
    |a| == |b| && forall i | 0 <= i < |a| :: Lower(a[i]) == Lower(b[i])
  }

  predicate IsCapitalOf(c: char, d: char) { 'A' <= c <= 'Z' && d as int == c as int + 32 }

  /** Character by character the same letter, in either case, or the same character. */
  predicate SameInAnyCase(a: string, b: string) {
    |a| == |b| && forall i | 0 <= i < |a| :: a[i] == b[i] || IsCapitalOf(a[i], b[i]) || IsCapitalOf(b[i], a[i])
  }

  lemma LowerIff(c: char, d: char)
    ensures Lower(c) == Lower(d) <==> c == d || IsCapitalOf(c, d) || IsCapitalOf(d, c)
  {
  }

  lemma SameInAnyCaseIff(a: string, b: string)
    ensures EqIgnoreAsciiCase(a, b) <==> SameInAnyCase(a, b)
  {
    hide Lower, IsCapitalOf;
    if |a| == |b| {
      forall i | 0 <= i < |a|
        ensures Lower(a[i]) == Lower(b[i]) <==> a[i] == b[i] || IsCapitalOf(a[i], b[i]) || IsCapitalOf(b[i], a[i])
      {
        LowerIff(a[i], b[i]);
      }
    }
  }

  /** Position of the first brand none is nearer than. */
  function Nearest(domain: string, brands: seq<string>): (k: nat)
    requires brands != []
    ensures k < |brands|
  {
    if |brands| == 1 then 0
    else
      var k := Nearest(domain, brands[1..]) + 1;
      if Lev(domain, brands[0]) <= Lev(domain, brands[k]) then 0 else k
  }

  function Squat(domain: string, brands: seq<string>, maxDistance: nat): Option<RiskSignal> {
    if brands == [] || exists b <- brands :: EqIgnoreAsciiCase(domain, b) then None
    else
      var brand := brands[Nearest(domain, brands)];
      if Lev(domain, brand) <= maxDistance then Some(Typosquat(domain, brand, Lev(domain, brand))) else None
  }

  /** `k` is the earliest brand at the least distance. */
  ghost predicate IsNearest(domain: string, brands: seq<string>, k: nat) {
    && k < |brands|
    && (forall j | 0 <= j < k :: Lev(domain, brands[k]) < Lev(domain, brands[j]))
    && (forall j | k <= j < |brands| :: Lev(domain, brands[k]) <= Lev(domain, brands[j]))
  }

  lemma {:induction false} NearestIff(domain: string, brands: seq<string>, k: nat)
    requires brands != []
    ensures k == Nearest(domain, brands) <==> IsNearest(domain, brands, k)
  {
    hide Lev;
    var n := Nearest(domain, brands);
    if |brands| > 1 {
      var later := brands[1..];
      NearestIff(domain, later, Nearest(domain, later));
      forall j | 0 <= j < |later| ensures later[j] == brands[j + 1] {
      }
      assert forall j | 1 <= j < |brands| :: brands[j] == later[j - 1];
    }
    assert IsNearest(domain, brands, n);
  }

  /** A brand that is not the domain in another case is at a positive distance, so the
      source's test for a positive distance never fails when it is reached. */
  lemma OtherBrandIsAway(domain: string, brand: string)
    requires !EqIgnoreAsciiCase(domain, brand)
    ensures Lev(domain, brand) > 0
  {
    LevZeroIff(domain, brand);
  }

  method CheckTyposquat(domain: string, brands: seq<string>, maxDistance: nat) returns (r: Option<RiskSignal>)
    ensures r == Squat(domain, brands, maxDistance)
  {
    hide Lev, EqIgnoreAsciiCase;
    var best: Option<(nat, string)> := None;
    ghost var at: nat := 0;
    for i := 0 to |brands|
      invariant forall j | 0 <= j < i :: !EqIgnoreAsciiCase(domain, brands[j])
      invariant best.None? ==> forall j | 0 <= j < i :: Lev(domain, brands[j]) > maxDistance
      invariant best.Some? ==> at < i && best.value == (Lev(domain, brands[at]), brands[at])
      invariant best.Some? ==> Lev(domain, brands[at]) <= maxDistance
      invariant best.Some? ==> forall j | 0 <= j < at :: Lev(domain, brands[at]) < Lev(domain, brands[j])
      invariant best.Some? ==> forall j | at <= j < i :: Lev(domain, brands[at]) <= Lev(domain, brands[j])
    {
      var brand := brands[i];
      if EqIgnoreAsciiCase(domain, brand) {
        return None;
      }
      var d := Distance(domain, brand);
      OtherBrandIsAway(domain, brand);
      if d > 0 && d <= maxDistance {
        if best.None? || best.value.0 > d {
          best, at := Some((d, brand)), i;
        }
      }
    }
    if best.None? {
      return None;
    }
    NearestIff(domain, brands, at);
    return Some(Typosquat(domain, best.value.1, best.value.0));
  }

  /** What is reported: no brand is the domain in another case, and the brand named is the
      earliest of those at the least distance, which is within the threshold. */
  ghost predicate Reports(signal: RiskSignal, domain: string, brands: seq<string>, maxDistance: nat) {
    && (forall b <- brands :: !SameInAnyCase(domain, b))
    && exists k: nat ::
         && IsNearest(domain, brands, k) && Lev(domain, brands[k]) <= maxDistance
         && signal == Typosquat(domain, brands[k], Lev(domain, brands[k]))
  }

  lemma SquatIff(domain: string, brands: seq<string>, maxDistance: nat, signal: RiskSignal)
    ensures Squat(domain, brands, maxDistance) == Some(signal) <==> Reports(signal, domain, brands, maxDistance)
  {
    hide Lev, EqIgnoreAsciiCase, SameInAnyCase;
    forall b ensures EqIgnoreAsciiCase(domain, b) <==> SameInAnyCase(domain, b) {
      SameInAnyCaseIff(domain, b);
    }
    if Squat(domain, brands, maxDistance) == Some(signal) {
      NearestIff(domain, brands, Nearest(domain, brands));
    }
    if Reports(signal, domain, brands, maxDistance) {
      var k: nat :|
        && IsNearest(domain, brands, k) && Lev(domain, brands[k]) <= maxDistance
        && signal == Typosquat(domain, brands[k], Lev(domain, brands[k]));
      NearestIff(domain, brands, k);
    }
  }

  /** Nothing is reported exactly when some brand, anywhere in the list, is the domain in
      another case or every brand is farther than the threshold. */
  lemma SquatNoneIff(domain: string, brands: seq<string>, maxDistance: nat)
    ensures Squat(domain, brands, maxDistance).None? <==>
            || (exists b <- brands :: SameInAnyCase(domain, b))
            || (forall b <- brands :: Lev(domain, b) > maxDistance)
  {
    hide Lev, EqIgnoreAsciiCase, SameInAnyCase;
    forall b ensures EqIgnoreAsciiCase(domain, b) <==> SameInAnyCase(domain, b) {
      SameInAnyCaseIff(domain, b);
    }
    if brands != [] {
      var k := Nearest(domain, brands);
      NearestIff(domain, brands, k);
      assert brands[k] in brands;
      forall b | b in brands ensures Lev(domain, brands[k]) <= Lev(domain, b) {
        var j :| 0 <= j < |brands| && brands[j] == b;
      }
    }
  }

  /** Whether a squat is reported, and at what distance, does not depend on the order of
      the brand list. */
  lemma SquatPermuted(domain: string, brands: seq<string>, brands': seq<string>, maxDistance: nat)
    requires multiset(brands) == multiset(brands')
    ensures var r, r' := Squat(domain, brands, maxDistance), Squat(domain, brands', maxDistance);
            && (r.Some? <==> r'.Some?)
            && (r.Some? ==> r.value.Typosquat? && r'.value.Typosquat? && r.value.distance == r'.value.distance)
  {
    hide Lev, EqIgnoreAsciiCase;
    assert forall b :: b in brands <==> b in multiset(brands);
    assert forall b :: b in brands' <==> b in multiset(brands');
    if brands != [] && brands' != [] {
      var k, k' := Nearest(domain, brands), Nearest(domain, brands');
      NearestIff(domain, brands, k);
      NearestIff(domain, brands', k');
      assert brands[k] in brands' && brands'[k'] in brands;
    } else {
      assert brands == [] ==> |multiset(brands')| == 0;
      assert brands' == [] ==> |multiset(brands)| == 0;
    }
  }
}
