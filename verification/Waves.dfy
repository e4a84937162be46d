/** The quality runner: selected gates in wave order, stopping behind the first wave in
    which a gate failed, and what is known of every report over any sequence of runs. */
module Waves {
  import opened Wire
  import opened Text
  import opened Scheduler
  import opened GateCache
  import opened GateRuns

  const WAVES: seq<string> := ["preflight", "static", "build", "postbuild", "tests", "audit"]

  /** The registry check: every gate has an id of its own and a wave that exists. */
  predicate ValidRegistry(gates: seq<Gate>) {
    && (forall i, j | 0 <= i < j < |gates| :: gates[i].id != gates[j].id)
    && (forall g <- gates :: g.id != "" && g.wave in WAVES)
  }

  /** Position of a gate's wave. */
  function Index(g: Gate): nat { FirstAt(WAVES, g.wave) }

  /** The waves in the order they are run. */
  lemma WaveOrder(g: Gate)
    ensures g.wave == "preflight" <==> Index(g) == 0
    ensures g.wave == "static" <==> Index(g) == 1
    ensures g.wave == "build" <==> Index(g) == 2
    ensures g.wave == "postbuild" <==> Index(g) == 3
    ensures g.wave == "tests" <==> Index(g) == 4
    ensures g.wave == "audit" <==> Index(g) == 5
  {
    hide Index;
    IndexIs(g, 0);
    IndexIs(g, 1);
    IndexIs(g, 2);
    IndexIs(g, 3);
    IndexIs(g, 4);
    IndexIs(g, 5);
  }

  /** Every applicable gate of an earlier wave was a cached pass or passes. */
  ghost predicate Reached(gates: seq<Gate>, w: World, hits: set<Gate>, wave: nat) {
    forall h <- gates :: Index(h) < wave && w.applies(h) ==> h in hits || w.passes(h)
  }

  /** The one result a gate should get. */
  ghost function Expected(gates: seq<Gate>, w: World, hits: set<Gate>, g: Gate): Result {
    Result(g,
      if !Reached(gates, w, hits, Index(g)) then Aborted
      else if !w.applies(g) then DoesNotApply
      else Outcome(g, w, hits))
  }

  /** Exactly one result, the expected one, for each gate of `todo`. */
  ghost predicate OneEach(results: seq<Result>, gates: seq<Gate>, w: World, hits: set<Gate>, todo: set<Gate>) {
    && (forall g <- todo :: Expected(gates, w, hits, g) in results)
    && (forall r <- results :: r.gate in todo && r == Expected(gates, w, hits, r.gate))
    && (forall i, j | 0 <= i < j < |results| :: results[i].gate != results[j].gate)
  }

  // ── Filtering ────────────────────────────────────────────────────────────

  /** The gates of a wave that apply, or those that do not, in registry order. */
  function Select(gates: seq<Gate>, w: World, wave: string, applies: bool): seq<Gate> {
    if gates == [] then []
    else
      (if gates[0].wave == wave && w.applies(gates[0]) == applies then [gates[0]] else [])
      + Select(gates[1..], w, wave, applies)
  }

  lemma {:induction false} SelectIff(gates: seq<Gate>, w: World, wave: string, applies: bool)
    ensures forall g :: g in Select(gates, w, wave, applies) <==>
              g in gates && g.wave == wave && w.applies(g) == applies
    ensures Distinct(gates) ==> Distinct(Select(gates, w, wave, applies))
  {
    if gates != [] {
      SelectIff(gates[1..], w, wave, applies);
      assert gates == [gates[0]] + gates[1..];
      if Distinct(gates) {
        assert Distinct(gates[1..]);
        assert gates[0] !in gates[1..];
      }
    }
  }

  function Skips(gates: seq<Gate>, status: Status): (results: seq<Result>)
    ensures |results| == |gates|
    ensures forall i | 0 <= i < |gates| :: results[i] == Result(gates[i], status)
  {
    seq(|gates|, i requires 0 <= i < |gates| => Result(gates[i], status))
  }

  // ── Collecting results ───────────────────────────────────────────────────

  lemma OneEachUnion(
      a: seq<Result>, b: seq<Result>, gates: seq<Gate>, w: World, hits: set<Gate>, inA: set<Gate>, inB: set<Gate>)
    requires OneEach(a, gates, w, hits, inA) && OneEach(b, gates, w, hits, inB) && inA !! inB
    ensures OneEach(a + b, gates, w, hits, inA + inB)
  {
    hide Expected;
    var all := a + b;
    forall i, j | 0 <= i < j < |all| ensures all[i].gate != all[j].gate {
      if i < |a| <= j {
        assert all[i] in a && all[j] in b;
      }
    }
  }

  lemma ResultsOneEach(results: seq<Result>, chosen: seq<Gate>, gates: seq<Gate>, w: World, hits: set<Gate>)
    requires Distinct(chosen) && |results| == |chosen|
    requires forall i | 0 <= i < |chosen| :: results[i] == Expected(gates, w, hits, chosen[i])
    ensures OneEach(results, gates, w, hits, Elements(chosen))
  {
    forall i | 0 <= i < |chosen| ensures results[i].gate == chosen[i] {
      assert Expected(gates, w, hits, chosen[i]).gate == chosen[i];
    }
    hide Expected;
    forall g | g in Elements(chosen) ensures Expected(gates, w, hits, g) in results {
      var i :| 0 <= i < |chosen| && chosen[i] == g;
      assert results[i] in results;
    }
    forall r | r in results ensures r.gate in Elements(chosen) && r == Expected(gates, w, hits, r.gate) {
      var i :| 0 <= i < |results| && results[i] == r;
    }
  }

  function InWave(gates: seq<Gate>, wave: string): set<Gate> {
    set g | g in gates && g.wave == wave
  }

  /** The gates of the first `k` waves. */
  function Before(gates: seq<Gate>, k: nat): set<Gate> {
    set g | g in gates && Index(g) < k
  }

  lemma IndexIs(g: Gate, k: nat)
    requires k < |WAVES|
    ensures Index(g) == k <==> g.wave == WAVES[k]
    ensures g.wave in WAVES ==> Index(g) < |WAVES|
  {
    FirstAtIsFirst(WAVES, g.wave);
    assert Distinct(WAVES);
  }

  /** Cached passes of later waves change neither what was reached nor any result so far. */
  lemma LaterHits(results: seq<Result>, gates: seq<Gate>, w: World, hits: set<Gate>, more: set<Gate>, k: nat)
    requires forall g <- more :: Index(g) >= k
    ensures Reached(gates, w, hits, k) <==> Reached(gates, w, hits + more, k)
    ensures OneEach(results, gates, w, hits, Before(gates, k)) ==>
              OneEach(results, gates, w, hits + more, Before(gates, k))
  {
    hide Index;
    forall g | Index(g) < k ensures Expected(gates, w, hits, g) == Expected(gates, w, hits + more, g) {
      assert Reached(gates, w, hits, Index(g)) <==> Reached(gates, w, hits + more, Index(g));
    }
  }

  // ── One wave ─────────────────────────────────────────────────────────────

  lemma WaveExpected(gates: seq<Gate>, w: World, before: set<Gate>, hits: set<Gate>, k: nat, g: Gate)
    requires k < |WAVES| && g in gates && g.wave == WAVES[k]
    requires before <= Before(gates, k) && Reached(gates, w, before, k)
    ensures Expected(gates, w, before + hits, g)
         == Result(g, if w.applies(g) then Outcome(g, w, hits) else DoesNotApply)
  {
    IndexIs(g, k);
    hide Index;
    assert Reached(gates, w, before + hits, k);
  }

  /** One wave that has been reached: skips for the gates that do not apply, then the
      results of the others, run concurrently. `before` are the cached passes so far. */
  method RunWave(cache: Cache, gates: seq<Gate>, w: World, ghost before: set<Gate>, k: nat, limit: nat)
    returns (launched: seq<Gate>, skipped: seq<Result>, results: seq<Result>,
             ghost hits: set<Gate>, ghost events: seq<Event>)
    requires cache.Valid() && Distinct(gates) && IdsDiffer(Elements(gates)) && limit >= 1 && k < |WAVES|
    requires before <= Before(gates, k) && Reached(gates, w, before, k)
    modifies cache
    ensures cache.Valid() && cache.history == old(cache.history) + events
    ensures launched == Select(gates, w, WAVES[k], true)
    ensures hits <= Elements(launched) && forall g <- hits :: KeyOf(g, w).Some?
    ensures Logged(events, Log(w, hits, Elements(launched) - hits, Elements(launched) - hits))
    ensures Bounded(events, limit) && Open(events) == 0
    ensures Busy(events, Elements(launched), Least(limit, |launched|))
    ensures OneEach(skipped + results, gates, w, before + hits, InWave(gates, WAVES[k]))
    ensures |results| == |launched|
    ensures forall i | 0 <= i < |launched| :: results[i].status == Outcome(launched[i], w, hits)
  {
    hide Index, Reached, OneEach, Expected, Before, Logged, Log, KeyOf, Outcome, Bounded, Open, Busy;
    launched := Select(gates, w, WAVES[k], true);
    var notRun := Select(gates, w, WAVES[k], false);
    SelectIff(gates, w, WAVES[k], true);
    SelectIff(gates, w, WAVES[k], false);
    skipped := Skips(notRun, DoesNotApply);
    FewerIdsDiffer(Elements(launched), Elements(gates));
    hide IdsDiffer;
    results, hits, events := RunGates(cache, launched, w, limit);
    forall i | 0 <= i < |launched| ensures results[i] == Expected(gates, w, before + hits, launched[i]) {
      assert launched[i] in launched;
      WaveExpected(gates, w, before, hits, k, launched[i]);
    }
    forall i | 0 <= i < |notRun| ensures skipped[i] == Expected(gates, w, before + hits, notRun[i]) {
      assert notRun[i] in notRun;
      WaveExpected(gates, w, before, hits, k, notRun[i]);
    }
    ResultsOneEach(results, launched, gates, w, before + hits);
    ResultsOneEach(skipped, notRun, gates, w, before + hits);
    OneEachUnion(skipped, results, gates, w, before + hits, Elements(notRun), Elements(launched));
    assert Elements(notRun) + Elements(launched) == InWave(gates, WAVES[k]);
  }

  lemma FewerIdsDiffer(some: set<Gate>, all: set<Gate>)
    requires some <= all && IdsDiffer(all)
    ensures IdsDiffer(some)
  {
  }

  // ── The wave loop ────────────────────────────────────────────────────────

  /** The gates of the first waves and those of the next one, together and apart. */
  lemma BeforeNext(gates: seq<Gate>, k: nat)
    requires k < |WAVES|
    ensures Before(gates, k) !! InWave(gates, WAVES[k])
    ensures Before(gates, k) + InWave(gates, WAVES[k]) == Before(gates, k + 1)
  {
    hide Index;
    forall g ensures Index(g) == k <==> g.wave == WAVES[k] {
      IndexIs(g, k);
    }
  }

  /** The gates of the first `k` waves that apply. */
  function Applicable(gates: seq<Gate>, w: World, k: nat): set<Gate> {
    set g | g in gates && Index(g) < k && w.applies(g)
  }

  /** The first `k` waves have been run: which gates were answered from the cache, which
      were run, what was logged and what has been reported. */
  ghost predicate Done(
      results: seq<Result>, gates: seq<Gate>, w: World, hits: set<Gate>, ran: set<Gate>, events: seq<Event>, k: nat)
  {
    && hits !! ran && hits + ran == Applicable(gates, w, k)
    && (forall g <- hits :: KeyOf(g, w).Some?)
    && OneEach(results, gates, w, hits, Before(gates, k))
    && Logged(events, Log(w, hits, ran, ran))
  }

  lemma NothingDone(gates: seq<Gate>, w: World, limit: nat)
    ensures Done([], gates, w, {}, {}, [], 0) && Reached(gates, w, {}, 0)
    ensures InWaveOrder([], gates, w) && Bounded([], limit) && Open([]) == 0 && KeepsBusy([], gates, w, limit)
  {
    NothingLogged(w);
  }

  lemma DoneHits(
      results: seq<Result>, gates: seq<Gate>, w: World, hits: set<Gate>, ran: set<Gate>, events: seq<Event>, k: nat)
    requires Done(results, gates, w, hits, ran, events, k)
    ensures hits <= Before(gates, k)
  {
    hide Index, OneEach, Logged, Log, KeyOf;
  }

  /** One more wave. */
  lemma WaveDone(
      results: seq<Result>, gates: seq<Gate>, w: World, hits: set<Gate>, ran: set<Gate>, events: seq<Event>, k: nat,
      launched: seq<Gate>, waveResults: seq<Result>, waveHits: set<Gate>, waveEvents: seq<Event>)
    requires Done(results, gates, w, hits, ran, events, k) && k < |WAVES| && IdsDiffer(Elements(gates))
    requires launched == Select(gates, w, WAVES[k], true)
    requires waveHits <= Elements(launched) && forall g <- waveHits :: KeyOf(g, w).Some?
    requires OneEach(waveResults, gates, w, hits + waveHits, InWave(gates, WAVES[k]))
    requires Logged(waveEvents, Log(w, waveHits, Elements(launched) - waveHits, Elements(launched) - waveHits))
    ensures Done(results + waveResults, gates, w, hits + waveHits, ran + (Elements(launched) - waveHits),
                 events + waveEvents, k + 1)
  {
    hide Index, OneEach, Logged, Log, KeyOf, Select, IdsDiffer, Before, InWave;
    LaunchedIs(gates, w, k, launched);
    LaterHits(results, gates, w, hits, waveHits, k);
    BeforeNext(gates, k);
    OneEachUnion(results, waveResults, gates, w, hits + waveHits, Before(gates, k), InWave(gates, WAVES[k]));
    var waveRan := Elements(launched) - waveHits;
    FewerIdsDiffer(hits + ran + waveHits + waveRan, Elements(gates));
    LogUnion(w, hits, ran, waveHits, waveRan);
    BothLogged(events, Log(w, hits, ran, ran), waveEvents, Log(w, waveHits, waveRan, waveRan));
  }

  lemma LaunchedIs(gates: seq<Gate>, w: World, k: nat, launched: seq<Gate>)
    requires k < |WAVES| && launched == Select(gates, w, WAVES[k], true)
    ensures forall g <- Elements(launched) :: g in gates && Index(g) == k && w.applies(g)
    ensures Applicable(gates, w, k) !! Elements(launched)
    ensures Applicable(gates, w, k) + Elements(launched) == Applicable(gates, w, k + 1)
  {
    hide Index, Select;
    SelectIff(gates, w, WAVES[k], true);
    forall g ensures Index(g) == k <==> g.wave == WAVES[k] {
      IndexIs(g, k);
    }
  }

  /** The next wave is reached unless a gate of this one failed. */
  lemma NextReached(
      gates: seq<Gate>, w: World, hits: set<Gate>, k: nat,
      launched: seq<Gate>, results: seq<Result>, waveHits: set<Gate>)
    requires k < |WAVES| && Reached(gates, w, hits, k) && hits <= Before(gates, k)
    requires launched == Select(gates, w, WAVES[k], true) && |results| == |launched|
    requires forall i | 0 <= i < |launched| :: results[i].status == Outcome(launched[i], w, waveHits)
    ensures (exists r <- results :: r.status == Fail) <==> !Reached(gates, w, hits + waveHits, k + 1)
  {
    hide Index, Select;
    LaunchedIs(gates, w, k, launched);
    if r :| r in results && r.status == Fail {
      var i :| 0 <= i < |results| && results[i] == r;
      assert launched[i] in Elements(launched);
      assert launched[i] !in hits;
    }
    if h :| h in gates && Index(h) < k + 1 && w.applies(h) && !(h in hits + waveHits || w.passes(h)) {
      assert h in Applicable(gates, w, k + 1);
      assert h in launched;
      var i :| 0 <= i < |launched| && launched[i] == h;
      assert results[i] in results;
    }
  }

  // ── Waves follow one another ─────────────────────────────────────────────

  predicate IsOf(e: Event, g: Gate) { !e.Cleared? && e.gateId == g.id }

  /** The gate has passed, really or from the cache. */
  ghost predicate Passed(events: seq<Event>, g: Gate) {
    exists e <- events :: IsOf(e, g) && (e.CachedPass? || e.RealPass?)
  }

  /** Whatever happens to a gate happens behind a pass of every applicable gate of the
      earlier waves. */
  ghost predicate InWaveOrder(events: seq<Event>, gates: seq<Gate>, w: World) {
    forall i, g, h | 0 <= i < |events| && g in gates && h in gates && IsOf(events[i], g) ::
      w.applies(h) && Index(h) < Index(g) ==> Passed(events[..i], h)
  }

  lemma PassedLater(events: seq<Event>, more: seq<Event>, g: Gate)
    requires Passed(events, g)
    ensures Passed(events + more, g)
  {
    var e :| e in events && IsOf(e, g) && (e.CachedPass? || e.RealPass?);
    assert e in events + more;
  }

  /** When a wave is reached every applicable gate of the waves before it has passed. */
  lemma AllPassed(
      results: seq<Result>, gates: seq<Gate>, w: World, hits: set<Gate>, ran: set<Gate>, events: seq<Event>, k: nat,
      h: Gate)
    requires Done(results, gates, w, hits, ran, events, k) && Reached(gates, w, hits, k)
    requires h in gates && w.applies(h) && Index(h) < k
    ensures Passed(events, h)
  {
    hide Index, OneEach, KeyOf;
    assert h in Applicable(gates, w, k);
    var e := if h in hits then HitOf(h, w) else EndOf(h, w);
    assert e in Log(w, hits, ran, ran);
    assert IsOf(e, h);
  }

  /** The gate of an event of a wave. */
  lemma LaunchedOf(events: seq<Event>, w: World, hits: set<Gate>, ran: set<Gate>, gates: seq<Gate>, e: Event, g: Gate)
    requires Logged(events, Log(w, hits, ran, ran)) && e in events && IsOf(e, g) && g in gates
    requires IdsDiffer(Elements(gates)) && hits + ran <= Elements(gates)
    ensures g in hits + ran
  {
    hide KeyOf, IdsDiffer;
    assert e in Log(w, hits, ran, ran);
    var h :| h in hits + ran && h.id == e.gateId;
    IdNames(gates, g, h);
  }

  lemma IdNames(gates: seq<Gate>, g: Gate, h: Gate)
    requires IdsDiffer(Elements(gates)) && g in gates && h in gates && g.id == h.id
    ensures g == h
  {
  }

  /** One more wave keeps the order. */
  lemma OrderStep(
      results: seq<Result>, gates: seq<Gate>, w: World, hits: set<Gate>, ran: set<Gate>, events: seq<Event>, k: nat,
      launched: seq<Gate>, waveHits: set<Gate>, waveEvents: seq<Event>)
    requires Done(results, gates, w, hits, ran, events, k) && Reached(gates, w, hits, k) && k < |WAVES|
    requires InWaveOrder(events, gates, w) && IdsDiffer(Elements(gates))
    requires launched == Select(gates, w, WAVES[k], true) && waveHits <= Elements(launched)
    requires Logged(waveEvents, Log(w, waveHits, Elements(launched) - waveHits, Elements(launched) - waveHits))
    ensures InWaveOrder(events + waveEvents, gates, w)
  {
    hide Index, Done, Logged, Log, KeyOf, Select, IdsDiffer, Reached, Passed;
    LaunchedIs(gates, w, k, launched);
    var all := events + waveEvents;
    forall i, g, h |
        0 <= i < |all| && g in gates && h in gates && IsOf(all[i], g) && w.applies(h) && Index(h) < Index(g)
      ensures Passed(all[..i], h)
    {
      if i < |events| {
        assert all[..i] == events[..i];
      } else {
        LaunchedOf(waveEvents, w, waveHits, Elements(launched) - waveHits, gates, all[i], g);
        assert g in Elements(launched);
        AllPassed(results, gates, w, hits, ran, events, k, h);
        PassedLater(events, waveEvents[..i - |events|], h);
        assert all[..i] == events + waveEvents[..i - |events|];
      }
    }
  }

  /** The gates of wave `k` that apply. */
  function WaveGates(gates: seq<Gate>, w: World, k: nat): set<Gate> {
    set g | g in gates && Index(g) == k && w.applies(g)
  }

  /** The limit is used: when a gate comes to an end, as many gates of its wave as the limit
      allows have been launched, or all of them. */
  ghost predicate KeepsBusy(events: seq<Event>, gates: seq<Gate>, w: World, limit: nat) {
    forall i, g | 0 <= i < |events| && IsEnd(events[i]) && g in gates && IsOf(events[i], g) ::
      var wave := WaveGates(gates, w, Index(g));
      |BegunOf(events[..i], wave)| >= Least(limit, |wave|)
  }

  lemma WaveGatesAre(gates: seq<Gate>, w: World, k: nat, launched: seq<Gate>)
    requires k < |WAVES| && launched == Select(gates, w, WAVES[k], true) && Distinct(gates)
    ensures Elements(launched) == WaveGates(gates, w, k) && |launched| == |WaveGates(gates, w, k)|
  {
    hide Index, Select;
    LaunchedIs(gates, w, k, launched);
    SelectIff(gates, w, WAVES[k], true);
    forall g ensures Index(g) == k <==> g.wave == WAVES[k] {
      IndexIs(g, k);
    }
    DistinctSize(launched);
  }

  lemma {:induction false} DistinctSize(xs: seq<Gate>)
    requires Distinct(xs)
    ensures |Elements(xs)| == |xs|
  {
    if xs != [] {
      var init, last := xs[..|xs| - 1], xs[|xs| - 1];
      DistinctSize(init);
      assert xs == init + [last];
      assert Elements(xs) == Elements(init) + {last};
    }
  }

  lemma BegunLater(events: seq<Event>, more: seq<Event>, gates: set<Gate>)
    ensures |BegunOf(more, gates)| <= |BegunOf(events + more, gates)|
  {
    forall g | g in BegunOf(more, gates) ensures g in BegunOf(events + more, gates) {
      var e :| e in more && Begins(e, g);
      assert e in events + more;
    }
    SubsetSize(BegunOf(more, gates), BegunOf(events + more, gates));
  }

  /** One more wave keeps the runner busy. */
  lemma BusyStep(
      events: seq<Event>, gates: seq<Gate>, w: World, k: nat, limit: nat,
      launched: seq<Gate>, waveHits: set<Gate>, waveEvents: seq<Event>)
    requires KeepsBusy(events, gates, w, limit) && k < |WAVES| && Distinct(gates) && IdsDiffer(Elements(gates))
    requires launched == Select(gates, w, WAVES[k], true) && waveHits <= Elements(launched)
    requires Logged(waveEvents, Log(w, waveHits, Elements(launched) - waveHits, Elements(launched) - waveHits))
    requires Busy(waveEvents, Elements(launched), Least(limit, |launched|))
    ensures KeepsBusy(events + waveEvents, gates, w, limit)
  {
    hide Index, Logged, Log, KeyOf, Select, IdsDiffer, BegunOf, WaveGates;
    LaunchedIs(gates, w, k, launched);
    WaveGatesAre(gates, w, k, launched);
    var all := events + waveEvents;
    forall i, g | 0 <= i < |all| && IsEnd(all[i]) && g in gates && IsOf(all[i], g)
      ensures var wave := WaveGates(gates, w, Index(g)); |BegunOf(all[..i], wave)| >= Least(limit, |wave|)
    {
      if i < |events| {
        assert all[..i] == events[..i];
      } else {
        LaunchedOf(waveEvents, w, waveHits, Elements(launched) - waveHits, gates, all[i], g);
        assert g in Elements(launched);
        assert all[..i] == events + waveEvents[..i - |events|];
        BegunLater(events, waveEvents[..i - |events|], WaveGates(gates, w, k));
      }
    }
  }

  /** The loop over waves. `hits` are the gates answered from the cache, `ran` those run. */
  method RunWaves(cache: Cache, gates: seq<Gate>, w: World, limit: nat)
    returns (results: seq<Result>, abort: bool, k: nat,
             ghost hits: set<Gate>, ghost ran: set<Gate>, ghost events: seq<Event>)
    requires cache.Valid() && Distinct(gates) && IdsDiffer(Elements(gates)) && limit >= 1
    modifies cache
    ensures cache.Valid() && cache.history == old(cache.history) + events
    ensures k <= |WAVES| && (!abort ==> k == |WAVES|)
    ensures Done(results, gates, w, hits, ran, events, k)
    ensures InWaveOrder(events, gates, w) && Bounded(events, limit) && KeepsBusy(events, gates, w, limit)
    ensures abort ==> k > 0 && Reached(gates, w, hits, k - 1) && !Reached(gates, w, hits, k)
    ensures !abort ==> Reached(gates, w, hits, k)
  {
    hide Index, OneEach, Reached, Select, Before, InWave, Applicable, Done, Logged, Log, Distinct, IdsDiffer, Outcome,
         KeyOf, IsHistory, IndexAfter, InWaveOrder, Bounded, Open, Busy, KeepsBusy;
    results, abort, k := [], false, 0;
    hits, ran, events := {}, {}, [];
    NothingDone(gates, w, limit);
    while k < |WAVES|
      invariant k <= |WAVES|
      invariant cache.Valid() && cache.history == old(cache.history) + events
      invariant Done(results, gates, w, hits, ran, events, k)
      invariant Reached(gates, w, hits, k)
      invariant InWaveOrder(events, gates, w) && Bounded(events, limit) && Open(events) == 0
      invariant KeepsBusy(events, gates, w, limit)
    {
      DoneHits(results, gates, w, hits, ran, events, k);
      ghost var before, waveHits, waveEvents := hits, {}, [];
      var launched, skipped, waveResults;
      launched, skipped, waveResults, waveHits, waveEvents := RunWave(cache, gates, w, hits, k, limit);
      WaveDone(results, gates, w, hits, ran, events, k, launched, skipped + waveResults, waveHits, waveEvents);
      OrderStep(results, gates, w, hits, ran, events, k, launched, waveHits, waveEvents);
      BoundedConcat(events, waveEvents, limit);
      BusyStep(events, gates, w, k, limit, launched, waveHits, waveEvents);
      NextReached(gates, w, hits, k, launched, waveResults, waveHits);
      StillReached(gates, w, hits, k, waveHits);
      results := results + (skipped + waveResults);
      hits, ran, events := hits + waveHits, ran + (Elements(launched) - waveHits), events + waveEvents;
      k := k + 1;
      if exists r <- waveResults :: r.status == Fail {
        abort := true;
        break;
      }
    }
  }

  lemma StillReached(gates: seq<Gate>, w: World, hits: set<Gate>, k: nat, waveHits: set<Gate>)
    requires Reached(gates, w, hits, k)
    ensures Reached(gates, w, hits + waveHits, k)
  {
  }

  // ── What was looked up and stored ────────────────────────────────────────

  /** Which of the launched gates were answered from the cache, `index` being the cache when
      the run began: every one whose key was stored, and otherwise only one whose key was
      stored by another gate that passed in this run. */
  ghost predicate HitsExactly(hits: set<Gate>, ran: set<Gate>, w: World, index: map<Key, Entry>) {
    && (forall g <- hits ::
          && KeyOf(g, w).Some?
          && (KeyOf(g, w).value in index || exists h <- ran :: w.passes(h) && KeyOf(h, w) == KeyOf(g, w)))
    && (forall g <- ran :: KeyOf(g, w).Some? ==> KeyOf(g, w).value !in index)
  }

  /** What a run adds to the cache: the keys of the gates that were run and passed. */
  ghost predicate StoredExactly(ran: set<Gate>, w: World, index: map<Key, Entry>, index': map<Key, Entry>) {
    forall key :: key in index' <==> key in index || exists g <- ran :: w.passes(g) && KeyOf(g, w) == Some(key)
  }

  /** A stored key is that of a gate that was run and passed. */
  lemma StoresIff(events: seq<Event>, w: World, hits: set<Gate>, ran: set<Gate>, key: Key)
    requires Logged(events, Log(w, hits, ran, ran))
    ensures (exists e <- events :: Stores(e, key)) <==> exists g <- ran :: w.passes(g) && KeyOf(g, w) == Some(key)
  {
    hide KeyOf;
    if g :| g in ran && w.passes(g) && KeyOf(g, w) == Some(key) {
      assert EndOf(g, w) in events;
      assert Stores(EndOf(g, w), key);
    }
  }

  lemma EventIn(events: seq<Event>, log: set<Event>, e: Event) returns (i: nat)
    requires Logged(events, log) && e in log
    ensures i < |events| && events[i] == e
    ensures forall d <- events[..i] :: d in events
  {
    i :| 0 <= i < |events| && events[i] == e;
  }

  /** Everything about lookups and stores follows from the log. */
  lemma LookUpsExact(base: seq<Event>, events: seq<Event>, w: World, hits: set<Gate>, ran: set<Gate>)
    requires IsHistory(base + events) && Logged(events, Log(w, hits, ran, ran))
    requires forall g <- hits :: KeyOf(g, w).Some?
    ensures HitsExactly(hits, ran, w, IndexAfter(base))
    ensures StoredExactly(ran, w, IndexAfter(base), IndexAfter(base + events))
  {
    hide KeyOf, Logged, Log, IndexAfter, IsHistory;
    LogHasNoClear(events, w, hits, ran);
    forall key ensures key in IndexAfter(base + events) <==>
                         key in IndexAfter(base) || exists g <- ran :: w.passes(g) && KeyOf(g, w) == Some(key) {
      IndexGrows(base, events, key);
      StoresIff(events, w, hits, ran, key);
    }
    forall g | g in hits
      ensures KeyOf(g, w).value in IndexAfter(base) || exists h <- ran :: w.passes(h) && KeyOf(h, w) == KeyOf(g, w)
    {
      HitWasStored(base, events, w, hits, ran, g);
    }
    forall g | g in ran && KeyOf(g, w).Some? ensures KeyOf(g, w).value !in IndexAfter(base) {
      StartWasNotStored(base, events, w, hits, ran, g);
    }
  }

  lemma LogHasNoClear(events: seq<Event>, w: World, hits: set<Gate>, ran: set<Gate>)
    requires Logged(events, Log(w, hits, ran, ran))
    ensures forall e <- events :: !e.Cleared?
  {
    hide KeyOf;
  }

  /** The event at its place in the whole history. */
  lemma PossibleAt(base: seq<Event>, events: seq<Event>, i: nat)
    requires IsHistory(base + events) && i < |events|
    ensures Possible(IndexAfter(base + events[..i]), events[i])
  {
    var all := base + events;
    assert all[..|base| + i] == base + events[..i];
    assert Possible(IndexAfter(all[..|base| + i]), all[|base| + i]);
  }

  lemma HitWasStored(base: seq<Event>, events: seq<Event>, w: World, hits: set<Gate>, ran: set<Gate>, g: Gate)
    requires IsHistory(base + events) && Logged(events, Log(w, hits, ran, ran))
    requires g in hits && KeyOf(g, w).Some?
    ensures KeyOf(g, w).value in IndexAfter(base) || exists h <- ran :: w.passes(h) && KeyOf(h, w) == KeyOf(g, w)
  {
    hide KeyOf, Logged, IndexAfter, IsHistory;
    var key := KeyOf(g, w).value;
    assert HitOf(g, w) in Log(w, hits, ran, ran);
    hide Log;
    var i := EventIn(events, Log(w, hits, ran, ran), HitOf(g, w));
    LogHasNoClear(events, w, hits, ran);
    PossibleAt(base, events, i);
    IndexGrows(base, events[..i], key);
    StoresIff(events, w, hits, ran, key);
  }

  lemma StartWasNotStored(base: seq<Event>, events: seq<Event>, w: World, hits: set<Gate>, ran: set<Gate>, g: Gate)
    requires IsHistory(base + events) && Logged(events, Log(w, hits, ran, ran))
    requires g in ran && KeyOf(g, w).Some?
    ensures KeyOf(g, w).value !in IndexAfter(base)
  {
    hide KeyOf, Logged, IndexAfter, IsHistory;
    var key := KeyOf(g, w).value;
    assert StartOf(g, w) in Log(w, hits, ran, ran);
    hide Log;
    var i := EventIn(events, Log(w, hits, ran, ran), StartOf(g, w));
    LogHasNoClear(events, w, hits, ran);
    PossibleAt(base, events, i);
    OnlyPassesAreCached(base + events[..i]);
    IndexGrows(base, events[..i], key);
  }

  // ── The whole run ────────────────────────────────────────────────────────

  function SelectedGates(registry: seq<Gate>, w: World): seq<Gate> {
    if registry == [] then []
    else (if w.selected(registry[0]) then [registry[0]] else []) + SelectedGates(registry[1..], w)
  }

  lemma {:induction false} SelectedIff(registry: seq<Gate>, w: World)
    ensures forall g :: g in SelectedGates(registry, w) <==> g in registry && w.selected(g)
    ensures ValidRegistry(registry) ==> ValidRegistry(SelectedGates(registry, w))
  {
    if registry != [] {
      SelectedIff(registry[1..], w);
      assert registry == [registry[0]] + registry[1..];
      if ValidRegistry(registry) {
        assert ValidRegistry(registry[1..]);
        assert forall g <- registry[1..] :: g.id != registry[0].id;
      }
    }
  }

  lemma ValidIds(gates: seq<Gate>)
    requires ValidRegistry(gates)
    ensures Distinct(gates) && IdsDiffer(Elements(gates))
  {
  }

  lemma ReachedIsMonotone(gates: seq<Gate>, w: World, hits: set<Gate>, j: nat, k: nat)
    requires j <= k && Reached(gates, w, hits, k)
    ensures Reached(gates, w, hits, j)
  {
  }

  /** The gates launched are those that apply in waves whose predecessors all passed, really
      or from the cache; each was either answered from the cache or run. */
  ghost predicate LaunchedExactly(hits: set<Gate>, ran: set<Gate>, gates: seq<Gate>, w: World) {
    && hits !! ran
    && forall g :: g in hits + ran <==> g in gates && w.applies(g) && Reached(gates, w, hits, Index(g))
  }

  /** Where the loop stopped, in terms of what was reached. */
  lemma StoppedAt(gates: seq<Gate>, w: World, abort: bool, k: nat, hits: set<Gate>, ran: set<Gate>)
    requires ValidRegistry(gates) && k <= |WAVES| && (!abort ==> k == |WAVES| && Reached(gates, w, hits, k))
    requires abort ==> k > 0 && Reached(gates, w, hits, k - 1) && !Reached(gates, w, hits, k)
    requires hits !! ran && hits + ran == Applicable(gates, w, k)
    ensures forall g <- gates :: Index(g) < k <==> Reached(gates, w, hits, Index(g))
    ensures LaunchedExactly(hits, ran, gates, w)
    ensures abort <==> exists g <- ran :: !w.passes(g)
  {
    hide Index;
    forall g | g in gates ensures Index(g) < k <==> Reached(gates, w, hits, Index(g)) {
      IndexIs(g, 0);
      if Index(g) < k {
        ReachedIsMonotone(gates, w, hits, Index(g), if abort then k - 1 else k);
      } else if Reached(gates, w, hits, Index(g)) {
        ReachedIsMonotone(gates, w, hits, k, Index(g));
      }
    }
    if abort {
      var h :| h in gates && Index(h) < k && w.applies(h) && !(h in hits || w.passes(h));
      assert h in Applicable(gates, w, k);
    }
  }

  /** What a completed run leaves behind, from the cache `index` to the cache `index'`. */
  ghost predicate Completed(
      gates: seq<Gate>, w: World, index: map<Key, Entry>, index': map<Key, Entry>,
      exitCode: int, results: seq<Result>, hits: set<Gate>, ran: set<Gate>)
  {
    && OneEach(results, gates, w, hits, Elements(gates))
    && LaunchedExactly(hits, ran, gates, w)
    && HitsExactly(hits, ran, w, index)
    && StoredExactly(ran, w, index, index')
    && exitCode == if exists g <- ran :: !w.passes(g) then 1 else 0
  }

  /** The key an event carries. */
  function KeyIn(e: Event): Option<Key> {
    match e
    case CachedPass(_, hit) => Some(hit)
    case RealStart(_, key) => key
    case RealPass(_, key, _) => key
    case RealFail(_, key) => key
    case Cleared => None
  }

  /** Which gates the cache serves: none that is not cacheable, and none at all when it is
      disabled; those are always run, and nothing about them is looked up or stored. Every
      other is looked up and stored under the digest of its id and inputs, and is not run
      when that was stored at the beginning. */
  ghost predicate ServesOnly(
      gates: seq<Gate>, w: World, index: map<Key, Entry>, index': map<Key, Entry>,
      hits: set<Gate>, ran: set<Gate>, events: seq<Event>)
  {
    && (forall g <- hits :: g.cacheable && !w.cacheDisabled)
    && (forall g <- hits + ran :: !g.cacheable || w.cacheDisabled ==> g in ran)
    && (forall g <- hits + ran ::
          g.cacheable && !w.cacheDisabled && w.digest(Preimage(g.id, w.inputs(g))) in index ==> g in hits)
    && (forall g <- gates, e <- events | IsOf(e, g) && (!g.cacheable || w.cacheDisabled) :: KeyIn(e) == None)
    && (forall g <- gates, e <- events | IsOf(e, g) && g.cacheable && !w.cacheDisabled ::
          KeyIn(e) == Some(w.digest(Preimage(g.id, w.inputs(g)))))
    && (forall key :: key in index' <==>
          key in index || exists g <- ran ::
            w.passes(g) && g.cacheable && !w.cacheDisabled && key == w.digest(Preimage(g.id, w.inputs(g))))
  }

  lemma EventKeys(gates: seq<Gate>, w: World, hits: set<Gate>, ran: set<Gate>, events: seq<Event>, e: Event, g: Gate)
    requires Logged(events, Log(w, hits, ran, ran)) && e in events && IsOf(e, g) && g in gates
    requires IdsDiffer(Elements(gates)) && hits + ran <= Elements(gates)
    ensures KeyIn(e) == KeyOf(g, w)
  {
    hide KeyOf, IdsDiffer;
    assert e in Log(w, hits, ran, ran);
    var h :| h in hits + ran && h.id == e.gateId && KeyIn(e) == KeyOf(h, w);
    IdNames(gates, g, h);
  }

  lemma ServesOnlyThose(
      gates: seq<Gate>, w: World, index: map<Key, Entry>, index': map<Key, Entry>,
      hits: set<Gate>, ran: set<Gate>, events: seq<Event>)
    requires ValidRegistry(gates) && LaunchedExactly(hits, ran, gates, w) && Logged(events, Log(w, hits, ran, ran))
    requires HitsExactly(hits, ran, w, index) && StoredExactly(ran, w, index, index')
    ensures ServesOnly(gates, w, index, index', hits, ran, events)
  {
    hide Logged, Log, Reached, Index, ValidRegistry, Preimage, IdsDiffer;
    ValidIds(gates);
    assert forall g <- hits + ran :: g in gates;
    forall g, e | g in gates && e in events && IsOf(e, g) ensures KeyIn(e) == KeyOf(g, w) {
      EventKeys(gates, w, hits, ran, events, e, g);
    }
  }

  /** A registry that is refused: a gate without an id or in no wave, or an id used twice. */
  ghost predicate IsRefused(registry: seq<Gate>) {
    || (exists g <- registry :: g.id == "" || g.wave !in WAVES)
    || (exists i, j | 0 <= i < j < |registry| :: registry[i].id == registry[j].id)
  }

  lemma RefusedIff(registry: seq<Gate>)
    ensures IsRefused(registry) <==> !ValidRegistry(registry)
  {
  }

  lemma NothingSelectedIff(registry: seq<Gate>, w: World)
    ensures SelectedGates(registry, w) == [] <==> forall g <- registry :: !w.selected(g)
  {
    SelectedIff(registry, w);
    var gates := SelectedGates(registry, w);
    assert gates != [] ==> gates[0] in gates;
  }

  /** How a run goes about its gates with `limit` at a time. */
  ghost predicate Scheduled(events: seq<Event>, gates: seq<Gate>, w: World, limit: nat) {
    InWaveOrder(events, gates, w) && Bounded(events, limit) && KeepsBusy(events, gates, w, limit)
  }

  /** A run of the registry: refuse a bad registry or an empty selection; otherwise run the
      waves and mark every gate that was never reached. Each selected gate gets exactly one
      result; a gate is launched exactly when it applies and every applicable gate of the
      earlier waves was a cached or a real pass, and then run unless it is cacheable and its
      key is stored; the history of the cache grows by exactly these events, those of a gate
      behind the passes of the earlier waves, at no time more gates being run than the limit
      and none ending before as many of its wave have been launched as the limit allows; the
      exit code is 1 exactly when a gate that was run failed. */
  method RunQuality(cache: Cache, registry: seq<Gate>, w: World, concurrency: int)
    returns (exitCode: int, results: seq<Result>, ghost hits: set<Gate>, ghost ran: set<Gate>, ghost events: seq<Event>)
    requires cache.Valid()
    modifies cache
    ensures cache.Valid() && cache.history == old(cache.history) + events
    ensures Logged(events, Log(w, hits, ran, ran))
    ensures Scheduled(events, SelectedGates(registry, w), w, if concurrency < 1 then 1 else concurrency)
    ensures exitCode == 2 <==> IsRefused(registry)
    ensures exitCode == 4 <==> !IsRefused(registry) && forall g <- registry :: !w.selected(g)
    ensures exitCode in {2, 4} ==> results == [] && hits == ran == {} && cache.index == old(cache.index)
    ensures exitCode !in {2, 4} ==>
              var gates := SelectedGates(registry, w);
              && Completed(gates, w, old(cache.index), cache.index, exitCode, results, hits, ran)
              && ServesOnly(gates, w, old(cache.index), cache.index, hits, ran, events)
  {
    hide OneEach, Index, Expected, Reached, LaunchedExactly, HitsExactly, StoredExactly, Logged, Log, KeyOf;
    hide IsHistory, IndexAfter, Distinct, IdsDiffer, ValidRegistry, Before, Applicable, SelectedGates;
    results, hits, ran, events := [], {}, {}, [];
    NothingLogged(w);
    var limit := if concurrency < 1 then 1 else concurrency;
    NothingDone(SelectedGates(registry, w), w, limit);
    SelectedIff(registry, w);
    NothingSelectedIff(registry, w);
    RefusedIff(registry);
    hide InWaveOrder, Bounded, KeepsBusy, ServesOnly, IsRefused;
    ghost var base := cache.history;
    assert base + [] == base;
    if !ValidRegistry(registry) {
      return 2, results, hits, ran, events;
    }
    var gates := SelectedGates(registry, w);
    if gates == [] {
      return 4, results, hits, ran, events;
    }
    ValidIds(gates);
    var abort, k;
    results, abort, k, hits, ran, events := RunWaves(cache, gates, w, limit);
    StoppedAt(gates, w, abort, k, hits, ran);
    LookUpsExact(base, events, w, hits, ran);
    ServesOnlyThose(gates, w, IndexAfter(base), cache.index, hits, ran, events);
    results := MarkAborted(gates, w, hits, k, results);
    exitCode := if abort then 1 else 0;
  }

  /** One more gate, not yet among the results, that was never reached. */
  lemma OneMoreAborted(
      results: seq<Result>, gates: seq<Gate>, w: World, hits: set<Gate>, todo: set<Gate>, g: Gate)
    requires OneEach(results, gates, w, hits, todo) && g !in todo && !Reached(gates, w, hits, Index(g))
    ensures OneEach(results + [Result(g, Aborted)], gates, w, hits, todo + {g})
  {
    assert Expected(gates, w, hits, g) == Result(g, Aborted);
    OneEachUnion(results, [Result(g, Aborted)], gates, w, hits, todo, {g});
  }

  /** A gate has a result exactly when a result carries its id. */
  lemma HasResultIff(results: seq<Result>, gates: seq<Gate>, w: World, hits: set<Gate>, todo: set<Gate>, g: Gate)
    requires ValidRegistry(gates) && OneEach(results, gates, w, hits, todo) && g in gates
    requires forall h <- todo :: h in gates
    ensures (exists r <- results :: r.gate.id == g.id) <==> g in todo
  {
    if g in todo {
      assert Expected(gates, w, hits, g) in results;
    }
    if r :| r in results && r.gate.id == g.id {
      assert r.gate in gates;
    }
  }

  method MarkAborted(gates: seq<Gate>, w: World, ghost hits: set<Gate>, k: nat, reached: seq<Result>)
    returns (results: seq<Result>)
    requires ValidRegistry(gates) && OneEach(reached, gates, w, hits, Before(gates, k))
    requires forall g <- gates :: Index(g) < k <==> Reached(gates, w, hits, Index(g))
    ensures OneEach(results, gates, w, hits, Elements(gates))
  {
    hide OneEach, Index, Expected, Reached, ValidRegistry;
    results := reached;
    ghost var todo := Before(gates, k);
    for i := 0 to |gates|
      invariant OneEach(results, gates, w, hits, todo)
      invariant todo == Before(gates, k) + set g | g in gates[..i]
    {
      var g := gates[i];
      HasResultIff(results, gates, w, hits, todo, g);
      assert gates[..i + 1] == gates[..i] + [g];
      if !exists r <- results :: r.gate.id == g.id {
        OneMoreAborted(results, gates, w, hits, todo, g);
        results := results + [Result(g, Aborted)];
        todo := todo + {g};
      }
    }
    assert gates[..|gates|] == gates;
    assert todo == Elements(gates);
  }

  // ── What a status means ──────────────────────────────────────────────────

  /** A result in terms of what was served, what was run and what failed. */
  ghost predicate StatusMeans(r: Result, w: World, hits: set<Gate>, ran: set<Gate>) {
    match r.status
    case Cached => r.gate in hits
    case Pass => r.gate in ran && w.passes(r.gate)
    case Fail => r.gate in ran && !w.passes(r.gate)
    case Aborted => exists h <- ran :: !w.passes(h) && Index(h) < Index(r.gate)
    case DoesNotApply => !w.applies(r.gate) && forall h <- ran | Index(h) < Index(r.gate) :: w.passes(h)
  }

  lemma {:induction false} FirstFailure(gates: seq<Gate>, w: World, hits: set<Gate>, k: nat) returns (h: Gate)
    requires !Reached(gates, w, hits, k)
    ensures h in gates && Index(h) < k && w.applies(h) && h !in hits && !w.passes(h)
    ensures Reached(gates, w, hits, Index(h))
    decreases k
  {
    hide Index;
    h :| h in gates && Index(h) < k && w.applies(h) && !(h in hits || w.passes(h));
    if !Reached(gates, w, hits, Index(h)) {
      h := FirstFailure(gates, w, hits, Index(h));
    }
  }

  lemma ResultStatus(
      gates: seq<Gate>, w: World, index: map<Key, Entry>, index': map<Key, Entry>,
      exitCode: int, results: seq<Result>, hits: set<Gate>, ran: set<Gate>, r: Result)
    requires Completed(gates, w, index, index', exitCode, results, hits, ran) && r in results
    ensures r.gate in gates && StatusMeans(r, w, hits, ran)
  {
    hide Index, HitsExactly, StoredExactly, Reached;
    var g := r.gate;
    assert r == Expected(gates, w, hits, g);
    if !Reached(gates, w, hits, Index(g)) {
      var h := FirstFailure(gates, w, hits, Index(g));
      assert h in hits + ran;
    } else {
      forall h | h in ran && Index(h) < Index(g) ensures w.passes(h) {
        assert h in hits + ran;
        ReachedPasses(gates, w, hits, Index(g), h);
      }
      assert w.applies(g) ==> g in hits + ran;
    }
  }

  lemma ReachedPasses(gates: seq<Gate>, w: World, hits: set<Gate>, k: nat, h: Gate)
    requires Reached(gates, w, hits, k) && h in gates && Index(h) < k && w.applies(h) && h !in hits
    ensures w.passes(h)
  {
  }

  /** Each gate that is registered and selected gets exactly one result, no other gate gets
      any, and the status says what happened to it. */
  lemma ResultsMean(
      registry: seq<Gate>, w: World, index: map<Key, Entry>, index': map<Key, Entry>,
      exitCode: int, results: seq<Result>, hits: set<Gate>, ran: set<Gate>)
    requires Completed(SelectedGates(registry, w), w, index, index', exitCode, results, hits, ran)
    ensures forall r <- results :: StatusMeans(r, w, hits, ran)
    ensures forall g :: (exists r <- results :: r.gate == g) <==> g in registry && w.selected(g)
    ensures forall i, j | 0 <= i < j < |results| :: results[i].gate != results[j].gate
  {
    var gates := SelectedGates(registry, w);
    SelectedIff(registry, w);
    hide StatusMeans, SelectedGates, LaunchedExactly, HitsExactly, StoredExactly;
    forall r | r in results ensures r.gate in gates && StatusMeans(r, w, hits, ran) {
      ResultStatus(gates, w, index, index', exitCode, results, hits, ran, r);
    }
    forall g | g in gates ensures exists r <- results :: r.gate == g {
      assert Expected(gates, w, hits, g) in results;
    }
  }

  // ── A run does not depend on the schedule ────────────────────────────────

  /** The gates whose key is stored. */
  ghost function Stored(gates: seq<Gate>, w: World, index: map<Key, Entry>): set<Gate> {
    set g | g in gates && KeyOf(g, w).Some? && KeyOf(g, w).value in index
  }

  /** Gate ids are one line, and the digest does not confuse the texts of two gates. */
  ghost predicate KeysTellApart(gates: seq<Gate>, w: World) {
    && (forall g <- gates :: '\n' !in g.id)
    && (forall g <- gates, h <- gates ::
          w.digest(TextOf(g, w)) == w.digest(TextOf(h, w)) ==> TextOf(g, w) == TextOf(h, w))
  }

  lemma KeysDiffer(gates: seq<Gate>, w: World, g: Gate, h: Gate)
    requires ValidRegistry(gates) && KeysTellApart(gates, w) && g in gates && h in gates
    requires KeyOf(g, w).Some? && KeyOf(g, w) == KeyOf(h, w)
    ensures g == h
  {
    hide Preimage, IdsDiffer, ValidRegistry;
    ValidIds(gates);
    PreimageIff(g.id, w.inputs(g), h.id, w.inputs(h));
    hide *;
    IdNames(gates, g, h);
  }

  /** Among the launched gates exactly those with a stored key were answered from the cache. */
  lemma HitIff(
      gates: seq<Gate>, w: World, index: map<Key, Entry>, hits: set<Gate>, ran: set<Gate>, g: Gate)
    requires ValidRegistry(gates) && KeysTellApart(gates, w) && LaunchedExactly(hits, ran, gates, w)
    requires HitsExactly(hits, ran, w, index) && g in hits + ran
    ensures g in hits <==> g in Stored(gates, w, index)
  {
    hide KeyOf, Reached, ValidRegistry, KeysTellApart;
    if g in hits && KeyOf(g, w).value !in index {
      var h :| h in ran && w.passes(h) && KeyOf(h, w) == KeyOf(g, w);
      assert h in hits + ran;
      KeysDiffer(gates, w, g, h);
    }
  }

  lemma {:induction false} ReachedIff(
      gates: seq<Gate>, w: World, index: map<Key, Entry>, hits: set<Gate>, ran: set<Gate>, k: nat)
    requires ValidRegistry(gates) && KeysTellApart(gates, w) && LaunchedExactly(hits, ran, gates, w)
    requires HitsExactly(hits, ran, w, index)
    ensures Reached(gates, w, hits, k) <==> Reached(gates, w, Stored(gates, w, index), k)
  {
    hide KeyOf, Index, ValidRegistry, KeysTellApart, HitsExactly, Stored;
    var stored := Stored(gates, w, index);
    if k > 0 {
      ReachedIff(gates, w, index, hits, ran, k - 1);
    }
    if Reached(gates, w, hits, k) || Reached(gates, w, stored, k) {
      forall h | h in gates && Index(h) < k && w.applies(h)
        ensures w.passes(h) || (h in hits && h in stored)
      {
        if Reached(gates, w, hits, k) {
          ReachedIsMonotone(gates, w, hits, Index(h), k);
        } else {
          ReachedIsMonotone(gates, w, hits, Index(h), k - 1);
        }
        HitIff(gates, w, index, hits, ran, h);
      }
    }
  }

  /** However its gates were scheduled, a run gives the results, runs the gates and returns
      the exit code that the world and the cache at its beginning determine: a gate is run
      exactly when it applies, every applicable gate of the earlier waves has its key stored
      or passes, and its own key is not stored. */
  lemma RunIsDetermined(
      gates: seq<Gate>, w: World, index: map<Key, Entry>, index': map<Key, Entry>,
      exitCode: int, results: seq<Result>, hits: set<Gate>, ran: set<Gate>)
    requires ValidRegistry(gates) && KeysTellApart(gates, w)
    requires Completed(gates, w, index, index', exitCode, results, hits, ran)
    ensures var stored := Stored(gates, w, index);
            && OneEach(results, gates, w, stored, Elements(gates))
            && (forall g :: g in ran <==>
                  g in gates && w.applies(g) && Reached(gates, w, stored, Index(g)) && g !in stored)
            && exitCode == if exists g <- ran :: !w.passes(g) then 1 else 0
  {
    hide KeyOf, Index, ValidRegistry, KeysTellApart, HitsExactly, StoredExactly, Stored, Reached;
    var stored := Stored(gates, w, index);
    forall g | g in gates
      ensures Reached(gates, w, hits, Index(g)) <==> Reached(gates, w, stored, Index(g))
      ensures Expected(gates, w, hits, g) == Expected(gates, w, stored, g)
      ensures g in hits + ran ==> (g in hits <==> g in stored)
    {
      ReachedIff(gates, w, index, hits, ran, Index(g));
      if g in hits + ran {
        HitIff(gates, w, index, hits, ran, g);
      }
    }
  }

  // ── Any sequence of invocations ──────────────────────────────────────────

  /** What the command line can ask for that concerns the cache. */
  datatype Invocation = Clear | Quality(registry: seq<Gate>, world: World, concurrency: int)

  datatype Report = Report(exitCode: int, results: seq<Result>)

  /** Invocation `j`, not later than `i`, really ran `h`, which passed under `key`, and the
      cache was not cleared from then to `i`. */
  ghost predicate EarnedBy(
      invocations: seq<Invocation>, reports: seq<Report>, i: int, key: Key, j: nat, h: Gate)
  {
    && j <= i < |invocations| && j < |reports|
    && (forall m | j <= m <= i :: invocations[m].Quality?)
    && Result(h, Pass) in reports[j].results
    && invocations[j].world.passes(h) && KeyOf(h, invocations[j].world) == Some(key)
  }

  ghost predicate IsEarned(invocations: seq<Invocation>, reports: seq<Report>, i: int, key: Key) {
    exists j, h :: EarnedBy(invocations, reports, i, key, j, h)
  }

  /** A reported pass is a real one: of this invocation, or of an earlier one under the same
      key. */
  ghost predicate Earned(invocations: seq<Invocation>, reports: seq<Report>, i: nat, r: Result)
    requires i < |invocations|
  {
    && invocations[i].Quality?
    && (r.status == Pass ==> invocations[i].world.passes(r.gate))
    && (r.status == Cached ==>
          && r.gate.cacheable && !invocations[i].world.cacheDisabled
          && KeyOf(r.gate, invocations[i].world).Some?
          && IsEarned(invocations, reports, i, KeyOf(r.gate, invocations[i].world).value))
  }

  ghost predicate AllEarned(invocations: seq<Invocation>, reports: seq<Report>) {
    && |reports| <= |invocations|
    && forall i, r | 0 <= i < |reports| && r in reports[i].results :: Earned(invocations, reports, i, r)
  }

  /** Every stored key was earned by an invocation so far. */
  ghost predicate Backed(index: map<Key, Entry>, invocations: seq<Invocation>, reports: seq<Report>) {
    forall key <- index :: IsEarned(invocations, reports, |reports| - 1, key)
  }

  lemma EarnedLater(invocations: seq<Invocation>, reports: seq<Report>, more: Report, i: nat, key: Key, j: nat, h: Gate)
    requires EarnedBy(invocations, reports, i, key, j, h)
    ensures EarnedBy(invocations, reports + [more], i, key, j, h)
  {
    assert (reports + [more])[j] == reports[j];
  }

  lemma AllEarnedLater(invocations: seq<Invocation>, reports: seq<Report>, more: Report)
    requires AllEarned(invocations, reports) && |reports| < |invocations|
    requires forall r <- more.results :: Earned(invocations, reports + [more], |reports|, r)
    ensures AllEarned(invocations, reports + [more])
  {
    hide EarnedBy, KeyOf;
    var all := reports + [more];
    forall i, r | 0 <= i < |all| && r in all[i].results ensures Earned(invocations, all, i, r) {
      if i < |reports| {
        assert Earned(invocations, reports, i, r);
        if r.status == Cached {
          var key := KeyOf(r.gate, invocations[i].world).value;
          var j, h :| EarnedBy(invocations, reports, i, key, j, h);
          EarnedLater(invocations, reports, more, i, key, j, h);
        }
      }
    }
  }

  /** A gate that was run and passed is reported so, and earns its key at once. */
  lemma RanEarns(
      invocations: seq<Invocation>, reports: seq<Report>, more: Report, hits: set<Gate>, ran: set<Gate>, g: Gate)
    requires |reports| < |invocations| && invocations[|reports|].Quality?
    requires var w := invocations[|reports|].world;
             var gates := SelectedGates(invocations[|reports|].registry, w);
             && OneEach(more.results, gates, w, hits, Elements(gates)) && LaunchedExactly(hits, ran, gates, w)
             && g in ran && w.passes(g) && KeyOf(g, w).Some?
    ensures var key := KeyOf(g, invocations[|reports|].world).value;
            EarnedBy(invocations, reports + [more], |reports|, key, |reports|, g)
  {
    hide KeyOf, Reached, Index;
    var w := invocations[|reports|].world;
    var gates := SelectedGates(invocations[|reports|].registry, w);
    assert g in hits + ran;
    assert Expected(gates, w, hits, g) == Result(g, Pass);
  }

  /** What was stored before is still earned when no clearing has come between. */
  lemma StillEarned(invocations: seq<Invocation>, reports: seq<Report>, more: Report, key: Key, j: nat, h: Gate)
    requires EarnedBy(invocations, reports, |reports| - 1, key, j, h)
    requires |reports| < |invocations| && invocations[|reports|].Quality?
    ensures EarnedBy(invocations, reports + [more], |reports|, key, j, h)
  {
    assert (reports + [more])[j] == reports[j];
  }

  /** A completed run keeps everything earned. */
  lemma RunEarned(
      invocations: seq<Invocation>, reports: seq<Report>, more: Report, index: map<Key, Entry>, index': map<Key, Entry>,
      hits: set<Gate>, ran: set<Gate>)
    requires AllEarned(invocations, reports) && Backed(index, invocations, reports)
    requires |reports| < |invocations| && invocations[|reports|].Quality?
    requires var w := invocations[|reports|].world;
             var gates := SelectedGates(invocations[|reports|].registry, w);
             Completed(gates, w, index, index', more.exitCode, more.results, hits, ran)
    ensures AllEarned(invocations, reports + [more]) && Backed(index', invocations, reports + [more])
  {
    hide KeyOf, OneEach, LaunchedExactly, IsEarned, SelectedGates, AllEarned;
    var w := invocations[|reports|].world;
    forall key | key in index || exists g <- ran :: w.passes(g) && KeyOf(g, w) == Some(key)
      ensures IsEarned(invocations, reports + [more], |reports|, key)
    {
      KeyEarned(invocations, reports, more, index, index', hits, ran, key);
    }
    assert Backed(index', invocations, reports + [more]);
    forall r | r in more.results ensures Earned(invocations, reports + [more], |reports|, r) {
      ResultMeans(SelectedGates(invocations[|reports|].registry, w), w, index, index', more, hits, ran, r);
    }
    AllEarnedLater(invocations, reports, more);
  }

  lemma ResultMeans(
      gates: seq<Gate>, w: World, index: map<Key, Entry>, index': map<Key, Entry>, report: Report,
      hits: set<Gate>, ran: set<Gate>, r: Result)
    requires Completed(gates, w, index, index', report.exitCode, report.results, hits, ran) && r in report.results
    ensures r.status == Pass ==> w.passes(r.gate)
    ensures r.status == Cached ==>
              && r.gate.cacheable && !w.cacheDisabled
              && KeyOf(r.gate, w).Some?
              && (KeyOf(r.gate, w).value in index || exists h <- ran :: w.passes(h) && KeyOf(h, w) == KeyOf(r.gate, w))
  {
    KeyedIsCacheable(r.gate, w);
    hide KeyOf, Reached, Index, StoredExactly, LaunchedExactly;
    assert r == Expected(gates, w, hits, r.gate);
  }

  lemma KeyedIsCacheable(g: Gate, w: World)
    ensures KeyOf(g, w).Some? <==> g.cacheable && !w.cacheDisabled
  {
  }

  lemma KeyEarned(
      invocations: seq<Invocation>, reports: seq<Report>, more: Report, index: map<Key, Entry>, index': map<Key, Entry>,
      hits: set<Gate>, ran: set<Gate>, key: Key)
    requires Backed(index, invocations, reports)
    requires |reports| < |invocations| && invocations[|reports|].Quality?
    requires var w := invocations[|reports|].world;
             var gates := SelectedGates(invocations[|reports|].registry, w);
             && Completed(gates, w, index, index', more.exitCode, more.results, hits, ran)
             && (key in index || exists g <- ran :: w.passes(g) && KeyOf(g, w) == Some(key))
    ensures IsEarned(invocations, reports + [more], |reports|, key)
  {
    hide KeyOf, OneEach, LaunchedExactly, HitsExactly, StoredExactly, EarnedBy, SelectedGates;
    var w := invocations[|reports|].world;
    if key in index {
      var j, h :| EarnedBy(invocations, reports, |reports| - 1, key, j, h);
      StillEarned(invocations, reports, more, key, j, h);
    } else {
      var g :| g in ran && w.passes(g) && KeyOf(g, w) == Some(key);
      RanEarns(invocations, reports, more, hits, ran, g);
    }
  }

  /** Nothing is reported: the cache stays as it was, or is cleared. */
  lemma QuietReport(
      invocations: seq<Invocation>, reports: seq<Report>, more: Report, index: map<Key, Entry>, index': map<Key, Entry>)
    requires AllEarned(invocations, reports) && Backed(index, invocations, reports)
    requires |reports| < |invocations| && more.results == []
    requires index' == if invocations[|reports|].Clear? then map[] else index
    ensures AllEarned(invocations, reports + [more]) && Backed(index', invocations, reports + [more])
  {
    hide EarnedBy, KeyOf;
    AllEarnedLater(invocations, reports, more);
    forall key | key in index' ensures IsEarned(invocations, reports + [more], |reports|, key) {
      var j, h :| EarnedBy(invocations, reports, |reports| - 1, key, j, h);
      StillEarned(invocations, reports, more, key, j, h);
    }
  }

  lemma NothingEarned(invocations: seq<Invocation>)
    ensures AllEarned(invocations, []) && Backed(map[], invocations, [])
  {
  }

  /** From an empty cache, in any sequence of runs and clearings: every pass a report names
      is a real pass of that run or is earned by an earlier one. */
  method RunAll(invocations: seq<Invocation>) returns (reports: seq<Report>)
    ensures |reports| == |invocations| && AllEarned(invocations, reports)
  {
    hide AllEarned, Backed, Completed, Logged, Log, IsHistory, SelectedGates;
    var cache := new Cache();
    reports := [];
    NothingEarned(invocations);
    for i := 0 to |invocations|
      invariant cache.Valid() && |reports| == i
      invariant AllEarned(invocations, reports) && Backed(cache.index, invocations, reports)
    {
      ghost var index := cache.index;
      match invocations[i]
      case Clear =>
        cache.ClearCache();
        QuietReport(invocations, reports, Report(0, []), index, cache.index);
        reports := reports + [Report(0, [])];
      case Quality(registry, world, concurrency) =>
        var exitCode, results;
        ghost var hits, ran, events;
        exitCode, results, hits, ran, events := RunQuality(cache, registry, world, concurrency);
        if exitCode in {2, 4} {
          QuietReport(invocations, reports, Report(exitCode, results), index, cache.index);
        } else {
          RunEarned(invocations, reports, Report(exitCode, results), index, cache.index, hits, ran);
        }
        reports := reports + [Report(exitCode, results)];
    }
  }

  /** What a cached pass is worth: where the digest does not confuse the two texts, the gate
      that really passed is the same gate on the same inputs. */
  lemma EarnedIsOwn(invocations: seq<Invocation>, reports: seq<Report>, i: nat, g: Gate, j: nat, h: Gate)
    requires i < |invocations| && invocations[i].Quality?
    requires var w := invocations[i].world;
             && KeyOf(g, w).Some?
             && EarnedBy(invocations, reports, i, KeyOf(g, w).value, j, h)
    requires var w, w' := invocations[i].world, invocations[j].world;
             w.digest(TextOf(g, w)) == w'.digest(TextOf(h, w')) ==> TextOf(g, w) == TextOf(h, w')
    requires '\n' !in g.id && '\n' !in h.id
    ensures g.id == h.id && invocations[i].world.inputs(g) == invocations[j].world.inputs(h)
  {
    var w, w' := invocations[i].world, invocations[j].world;
    PreimageIff(g.id, w.inputs(g), h.id, w'.inputs(h));
  }
}
