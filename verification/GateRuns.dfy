/** Running the gates of one wave: the dispatcher in front, the cache in front of each gate,
    and the log of what happened. */
module GateRuns {
  import opened Wire
  import opened Scheduler
  import opened GateCache

  datatype Gate = Gate(id: string, wave: string, cacheable: bool)

  datatype Status = Pass | Cached | Fail | DoesNotApply | Aborted

  datatype Result = Result(gate: Gate, status: Status)

  /** What a run depends on besides the registry: which gates the command line selects and
      which apply; whether a gate passes when it is run, and when; and what goes into its
      key. A gate is looked up and run at most once per run, so functions say all there is
      to say. */
  datatype World = World(
    selected: Gate -> bool, applies: Gate -> bool, passes: Gate -> bool, passedAt: Gate -> string,
    cacheDisabled: bool, digest: Digest, inputs: Gate -> string)

  /** The text the gate's key is the digest of. */
  function TextOf(g: Gate, w: World): string { Preimage(g.id, w.inputs(g)) }

  function KeyOf(g: Gate, w: World): Option<Key> {
    if g.cacheable && !w.cacheDisabled then Some(w.digest(TextOf(g, w))) else None
  }

  /** The status of a gate that was launched, `hits` being those answered from the cache. */
  function Outcome(g: Gate, w: World, hits: set<Gate>): Status {
    if g in hits then Cached else if w.passes(g) then Pass else Fail
  }

  function Elements<T(==)>(xs: seq<T>): set<T> { set x | x in xs }

  predicate Distinct<T(==)>(xs: seq<T>) {
    forall i, j | 0 <= i < j < |xs| :: xs[i] != xs[j]
  }

  predicate IdsDiffer(gates: set<Gate>) {
    forall g <- gates, h <- gates | g.id == h.id :: g == h
  }

  // ── The log ──────────────────────────────────────────────────────────────

  function HitOf(g: Gate, w: World): Event
    requires KeyOf(g, w).Some?
  {
    CachedPass(g.id, KeyOf(g, w).value)
  }

  function StartOf(g: Gate, w: World): Event { RealStart(g.id, KeyOf(g, w)) }

  function EndOf(g: Gate, w: World): Event {
    if w.passes(g) then RealPass(g.id, KeyOf(g, w), w.passedAt(g)) else RealFail(g.id, KeyOf(g, w))
  }

  /** What should have happened: `hits` were answered from the cache, `started` really run,
      and `ended` have come to an end. */
  ghost function Log(w: World, hits: set<Gate>, started: set<Gate>, ended: set<Gate>): set<Event> {
    (set g | g in hits && KeyOf(g, w).Some? :: HitOf(g, w))
    + (set g | g in started :: StartOf(g, w))
    + (set g | g in ended :: EndOf(g, w))
  }

  predicate IsEnd(e: Event) { e.RealPass? || e.RealFail? }

  /** An end comes behind a start of the same gate under the same key. */
  ghost predicate Follows(e: Event, before: seq<Event>) {
    IsEnd(e) ==> RealStart(e.gateId, e.key) in before
  }

  /** Exactly the events of `log` have happened, each once, ends behind starts. */
  ghost predicate Logged(events: seq<Event>, log: set<Event>) {
    && Distinct(events)
    && (forall e :: e in events <==> e in log)
    && (forall i | 0 <= i < |events| :: Follows(events[i], events[..i]))
  }

  lemma NothingLogged(w: World)
    ensures Logged([], Log(w, {}, {}, {}))
  {
  }

  lemma OneMoreLogged(events: seq<Event>, log: set<Event>, e: Event)
    requires Logged(events, log) && e !in log && Follows(e, events)
    ensures Logged(events + [e], log + {e})
  {
    var all := events + [e];
    forall i | 0 <= i < |all| ensures Follows(all[i], all[..i]) {
      if i < |events| {
        assert all[..i] == events[..i];
      } else {
        assert all[..i] == events;
      }
    }
    assert forall i | 0 <= i < |events| :: all[i] in events;
  }

  lemma BothLogged(a: seq<Event>, logA: set<Event>, b: seq<Event>, logB: set<Event>)
    requires Logged(a, logA) && Logged(b, logB) && logA !! logB
    ensures Logged(a + b, logA + logB)
  {
    var all := a + b;
    forall i | 0 <= i < |all| ensures Follows(all[i], all[..i]) {
      if i < |a| {
        assert all[..i] == a[..i];
      } else {
        assert all[..i] == a + b[..i - |a|];
      }
    }
    assert forall i | 0 <= i < |all| :: all[i] in if i < |a| then a else b;
  }

  lemma LogUnion(w: World, hitsA: set<Gate>, ranA: set<Gate>, hitsB: set<Gate>, ranB: set<Gate>)
    requires IdsDiffer(hitsA + ranA + hitsB + ranB) && hitsA + ranA !! hitsB + ranB
    ensures Log(w, hitsA, ranA, ranA) + Log(w, hitsB, ranB, ranB)
         == Log(w, hitsA + hitsB, ranA + ranB, ranA + ranB)
    ensures Log(w, hitsA, ranA, ranA) !! Log(w, hitsB, ranB, ranB)
  {
    hide KeyOf;
    forall e | e in Log(w, hitsA, ranA, ranA) ensures exists g <- hitsA + ranA :: g.id == e.gateId && !e.Cleared? {
    }
  }

  // ── The limit ────────────────────────────────────────────────────────────

  function Change(e: Event): int { if e.RealStart? then 1 else if IsEnd(e) then -1 else 0 }

  /** How many gates have been started and have not come to an end. */
  function Open(events: seq<Event>): int {
    if events == [] then 0
    else Open(events[..|events| - 1]) + Change(events[|events| - 1])
  }

  /** At no time are more than `limit` gates being run. */
  ghost predicate Bounded(events: seq<Event>, limit: nat) {
    forall i | 0 <= i <= |events| :: Open(events[..i]) <= limit
  }

  lemma OpenOneMore(events: seq<Event>, e: Event, limit: nat)
    ensures Open(events + [e]) == Open(events) + Change(e)
    ensures Bounded(events, limit) && Open(events + [e]) <= limit ==> Bounded(events + [e], limit)
  {
    var all := events + [e];
    assert all[..|events|] == events && all[..|all|] == all;
    if Bounded(events, limit) && Open(all) <= limit {
      forall i | 0 <= i <= |all| ensures Open(all[..i]) <= limit {
        if i <= |events| {
          assert all[..i] == events[..i];
        }
      }
    }
  }

  lemma {:induction false} OpenConcat(a: seq<Event>, b: seq<Event>)
    ensures Open(a + b) == Open(a) + Open(b)
  {
    if b == [] {
      assert a + b == a;
    } else {
      var init := b[..|b| - 1];
      assert (a + b)[..|a + b| - 1] == a + init;
      OpenConcat(a, init);
    }
  }

  /** The limit holds across waves, as each one comes to its end. */
  lemma BoundedConcat(a: seq<Event>, b: seq<Event>, limit: nat)
    requires Bounded(a, limit) && Bounded(b, limit) && Open(a) == 0
    ensures Bounded(a + b, limit) && Open(a + b) == Open(b)
  {
    OpenConcat(a, b);
    forall i | 0 <= i <= |a + b| ensures Open((a + b)[..i]) <= limit {
      if i <= |a| {
        assert (a + b)[..i] == a[..i];
      } else {
        assert (a + b)[..i] == a + b[..i - |a|];
        OpenConcat(a, b[..i - |a|]);
      }
    }
  }

  /** The gates being run are `pending`, and there were never more than `limit`. */
  ghost predicate Paced(events: seq<Event>, pending: set<Gate>, limit: nat) {
    Open(events) == |pending| && Bounded(events, limit)
  }

  lemma PacedStep(events: seq<Event>, pending: set<Gate>, e: Event, pending': set<Gate>, limit: nat)
    requires Paced(events, pending, limit) && |pending'| == |pending| + Change(e) && |pending'| <= limit
    ensures Paced(events + [e], pending', limit)
  {
    OpenOneMore(events, e, limit);
  }

  // ── The limit is used ────────────────────────────────────────────────────

  predicate Begins(e: Event, g: Gate) { (e.CachedPass? || e.RealStart?) && e.gateId == g.id }

  /** The gates that have been launched. */
  ghost function BegunOf(events: seq<Event>, gates: set<Gate>): set<Gate> {
    set g | g in gates && exists e <- events :: Begins(e, g)
  }

  /** No gate comes to an end before `m` of the gates have been launched. */
  ghost predicate Busy(events: seq<Event>, gates: set<Gate>, m: nat) {
    forall i | 0 <= i < |events| && IsEnd(events[i]) :: |BegunOf(events[..i], gates)| >= m
  }

  lemma BusyMore(events: seq<Event>, e: Event, gates: set<Gate>, m: nat)
    requires Busy(events, gates, m) && (IsEnd(e) ==> |BegunOf(events, gates)| >= m)
    ensures Busy(events + [e], gates, m)
  {
    hide BegunOf;
    var all := events + [e];
    forall i | 0 <= i < |all| && IsEnd(all[i]) ensures |BegunOf(all[..i], gates)| >= m {
      assert all[..i] == events[..i];
    }
  }

  lemma SubsetSize<T>(a: set<T>, b: set<T>)
    requires a <= b
    ensures |a| <= |b|
  {
    assert b == a + (b - a);
  }

  // ── Gates in flight ──────────────────────────────────────────────────────

  /** The gates launched so far. */
  function First(items: seq<Gate>, next: nat): set<Gate>
    requires next <= |items|
  {
    Elements(items[..next])
  }

  /** The first `next` gates have been launched: `hits` were answered from the cache, the
      others really started, and of these `pending` have not come to an end. */
  ghost predicate InFlight(
      items: seq<Gate>, w: World, next: nat, hits: set<Gate>, pending: set<Gate>, events: seq<Event>)
  {
    && next <= |items|
    && hits <= First(items, next) && pending <= First(items, next) - hits
    && (forall g <- hits :: KeyOf(g, w).Some?)
    && Logged(events, Log(w, hits, First(items, next) - hits, First(items, next) - hits - pending))
  }

  lemma FirstNext(items: seq<Gate>, next: nat)
    requires next < |items| && Distinct(items)
    ensures First(items, next + 1) == First(items, next) + {items[next]} && items[next] !in First(items, next)
  {
    assert items[..next + 1] == items[..next] + [items[next]];
  }

  lemma {:induction false} FirstSize(items: seq<Gate>, next: nat)
    requires next <= |items| && Distinct(items)
    ensures |First(items, next)| == next
    decreases next
  {
    if next > 0 {
      FirstSize(items, next - 1);
      FirstNext(items, next - 1);
    }
  }

  /** Every launch is in the log. */
  lemma LaunchedHaveBegun(
      items: seq<Gate>, w: World, next: nat, hits: set<Gate>, pending: set<Gate>, events: seq<Event>)
    requires InFlight(items, w, next, hits, pending, events) && Distinct(items)
    ensures |BegunOf(events, Elements(items))| >= next
  {
    hide KeyOf;
    FirstSize(items, next);
    forall g | g in First(items, next) ensures g in BegunOf(events, Elements(items)) {
      var e := if g in hits then HitOf(g, w) else StartOf(g, w);
      assert e in events && Begins(e, g);
    }
    SubsetSize(First(items, next), BegunOf(events, Elements(items)));
  }

  /** A gate is launched: from the cache... */
  lemma OneHit(items: seq<Gate>, w: World, next: nat, hits: set<Gate>, pending: set<Gate>, events: seq<Event>)
    requires Distinct(items) && IdsDiffer(Elements(items)) && next < |items| && KeyOf(items[next], w).Some?
    requires InFlight(items, w, next, hits, pending, events)
    ensures InFlight(items, w, next + 1, hits + {items[next]}, pending, events + [HitOf(items[next], w)])
  {
    hide KeyOf, Logged, First;
    var g := items[next];
    FirstNext(items, next);
    var started := First(items, next) - hits;
    FirstIsFirst(items, next);
    OneMoreLogged(events, Log(w, hits, started, started - pending), HitOf(g, w));
    assert First(items, next + 1) - (hits + {g}) == started;
    assert Log(w, hits + {g}, started, started - pending) == Log(w, hits, started, started - pending) + {HitOf(g, w)};
  }

  /** ...or really. */
  lemma OneStart(items: seq<Gate>, w: World, next: nat, hits: set<Gate>, pending: set<Gate>, events: seq<Event>)
    requires Distinct(items) && IdsDiffer(Elements(items)) && next < |items|
    requires InFlight(items, w, next, hits, pending, events)
    ensures InFlight(items, w, next + 1, hits, pending + {items[next]}, events + [StartOf(items[next], w)])
  {
    hide KeyOf, Logged, First;
    var g := items[next];
    FirstNext(items, next);
    FirstIsFirst(items, next);
    var started := First(items, next) - hits;
    OneMoreLogged(events, Log(w, hits, started, started - pending), StartOf(g, w));
    assert First(items, next + 1) - hits == started + {g};
    assert started + {g} - (pending + {g}) == started - pending;
    assert Log(w, hits, started + {g}, started - pending)
        == Log(w, hits, started, started - pending) + {StartOf(g, w)};
  }

  lemma FirstIsFirst(items: seq<Gate>, next: nat)
    requires next <= |items|
    ensures First(items, next) <= Elements(items)
  {
  }

  /** A gate that was really started comes to an end. */
  lemma OneEnd(
      items: seq<Gate>, w: World, next: nat, hits: set<Gate>, pending: set<Gate>, events: seq<Event>, g: Gate)
    requires Distinct(items) && IdsDiffer(Elements(items)) && g in pending
    requires InFlight(items, w, next, hits, pending, events)
    ensures InFlight(items, w, next, hits, pending - {g}, events + [EndOf(g, w)])
  {
    hide KeyOf, First;
    FirstIsFirst(items, next);
    var started := First(items, next) - hits;
    assert StartOf(g, w) in events;
    hide Logged;
    OneMoreLogged(events, Log(w, hits, started, started - pending), EndOf(g, w));
    assert started - (pending - {g}) == started - pending + {g};
    assert Log(w, hits, started, started - pending + {g})
        == Log(w, hits, started, started - pending) + {EndOf(g, w)};
  }

  /** The items in flight cover the gates that have not come to an end. */
  ghost predicate Covered(items: seq<Gate>, running: set<nat>, pending: set<Gate>) {
    forall g <- pending :: exists i <- running :: i < |items| && items[i] == g
  }

  lemma CoveredMore(items: seq<Gate>, running: set<nat>, pending: set<Gate>, more: set<nat>, from: nat, to: nat)
    requires Covered(items, running, pending) && from <= to && more == running + Between(from, to)
    ensures Covered(items, more, pending) && forall i | from <= i < to :: i in more
  {
    forall g | g in pending ensures exists i <- more :: i < |items| && items[i] == g {
      var i :| i in running && i < |items| && items[i] == g;
      assert i in more;
    }
  }

  /** There are no more gates being run than items in flight. */
  lemma {:induction false} CoveredSize(items: seq<Gate>, running: set<nat>, pending: set<Gate>)
    requires Covered(items, running, pending)
    ensures |pending| <= |running|
    decreases |pending|
  {
    if g :| g in pending {
      var i :| i in running && i < |items| && items[i] == g;
      forall h | h in pending - {g} ensures exists j <- running - {i} :: j < |items| && items[j] == h {
        var j :| j in running && j < |items| && items[j] == h;
        assert j in running - {i};
      }
      CoveredSize(items, running - {i}, pending - {g});
    }
  }

  /** The gates being run are covered by the items in flight, which keep to the limit. */
  ghost predicate Running(
      items: seq<Gate>, running: set<nat>, pending: set<Gate>, events: seq<Event>, limit: nat)
  {
    |running| <= limit && Covered(items, running, pending) && Paced(events, pending, limit)
  }

  /** One more gate is launched for item `i`, which is in flight: from the cache... */
  lemma RunningHit(
      items: seq<Gate>, w: World, running: set<nat>, i: nat, pending: set<Gate>, events: seq<Event>, limit: nat)
    requires i < |items| && KeyOf(items[i], w).Some? && Running(items, running, pending, events, limit)
    ensures Running(items, running, pending, events + [HitOf(items[i], w)], limit)
  {
    hide Paced, KeyOf;
    CoveredSize(items, running, pending);
    hide Covered;
    PacedStep(events, pending, HitOf(items[i], w), pending, limit);
  }

  /** ...or really. */
  lemma RunningStart(
      items: seq<Gate>, w: World, running: set<nat>, i: nat, pending: set<Gate>, events: seq<Event>, limit: nat)
    requires i < |items| && i in running && items[i] !in pending && Running(items, running, pending, events, limit)
    ensures Running(items, running, pending + {items[i]}, events + [StartOf(items[i], w)], limit)
  {
    hide Paced, KeyOf;
    assert Covered(items, running, pending + {items[i]});
    CoveredSize(items, running, pending + {items[i]});
    hide Covered;
    PacedStep(events, pending, StartOf(items[i], w), pending + {items[i]}, limit);
  }

  /** The part of the runner's callback that is done at once when an item is started. The
      cache has the history `base` followed by the events of this wave. */
  method LookUpOne(
      cache: Cache, items: seq<Gate>, w: World, i: nat, hits0: set<Gate>, pending0: set<Gate>,
      ghost base: seq<Event>, ghost events0: seq<Event>, ghost running: set<nat>, ghost limit: nat, ghost m: nat)
    returns (hits: set<Gate>, pending: set<Gate>, ghost events: seq<Event>)
    requires cache.Valid() && cache.history == base + events0
    requires i < |items| && Distinct(items) && IdsDiffer(Elements(items)) && i in running
    requires InFlight(items, w, i, hits0, pending0, events0) && Running(items, running, pending0, events0, limit)
    requires Busy(events0, Elements(items), m)
    modifies cache
    ensures cache.Valid() && cache.history == base + events
    ensures InFlight(items, w, i + 1, hits, pending, events) && Running(items, running, pending, events, limit)
    ensures Busy(events, Elements(items), m)
    ensures hits0 <= hits <= hits0 + {items[i]} && pending0 <= pending <= pending0 + {items[i]}
  {
    hide InFlight, IdsDiffer, Distinct, Elements, KeyOf, IsHistory, IndexAfter, Running, Busy;
    NotYetPending(items, w, i, hits0, pending0, events0);
    var g := items[i];
    var cached := cache.Launch(g.id, KeyOf(g, w));
    if cached {
      OneHit(items, w, i, hits0, pending0, events0);
      RunningHit(items, w, running, i, pending0, events0, limit);
      BusyMore(events0, HitOf(g, w), Elements(items), m);
      hits, pending, events := hits0 + {g}, pending0, events0 + [HitOf(g, w)];
    } else {
      OneStart(items, w, i, hits0, pending0, events0);
      RunningStart(items, w, running, i, pending0, events0, limit);
      BusyMore(events0, StartOf(g, w), Elements(items), m);
      hits, pending, events := hits0, pending0 + {g}, events0 + [StartOf(g, w)];
    }
  }

  lemma NotYetPending(items: seq<Gate>, w: World, i: nat, hits: set<Gate>, pending: set<Gate>, events: seq<Event>)
    requires InFlight(items, w, i, hits, pending, events) && i < |items| && Distinct(items)
    ensures items[i] !in pending
  {
    hide Logged, Log, KeyOf;
    FirstNext(items, i);
  }

  method LookUp(
      cache: Cache, items: seq<Gate>, w: World, from: nat, to: nat, hits0: set<Gate>, pending0: set<Gate>,
      ghost base: seq<Event>, ghost events0: seq<Event>, ghost running: set<nat>, ghost limit: nat, ghost m: nat)
    returns (hits: set<Gate>, pending: set<Gate>, ghost events: seq<Event>)
    requires cache.Valid() && cache.history == base + events0
    requires from <= to <= |items| && Distinct(items) && IdsDiffer(Elements(items))
    requires forall i | from <= i < to :: i in running
    requires InFlight(items, w, from, hits0, pending0, events0) && Running(items, running, pending0, events0, limit)
    requires Busy(events0, Elements(items), m)
    modifies cache
    ensures cache.Valid() && cache.history == base + events
    ensures InFlight(items, w, to, hits, pending, events) && Running(items, running, pending, events, limit)
    ensures Busy(events, Elements(items), m)
    ensures Added(items, from, to, hits0, hits)
  {
    hide InFlight, IdsDiffer, Distinct, Added, Running, Busy, Elements;
    hits, pending, events := hits0, pending0, events0;
    NoneAdded(items, from, hits0);
    for i := from to to
      invariant cache.Valid() && cache.history == base + events
      invariant InFlight(items, w, i, hits, pending, events) && Running(items, running, pending, events, limit)
      invariant Busy(events, Elements(items), m)
      invariant Added(items, from, i, hits0, hits)
    {
      ghost var hits1 := hits;
      hits, pending, events := LookUpOne(cache, items, w, i, hits, pending, base, events, running, limit, m);
      OneAdded(items, from, i, hits0, hits1, hits);
    }
  }

  /** `more` has what `gates` has, and otherwise only items `from` to `to`. */
  ghost predicate Added(items: seq<Gate>, from: nat, to: nat, gates: set<Gate>, more: set<Gate>) {
    from <= to <= |items| && gates <= more <= gates + Elements(items[from..to])
  }

  lemma NoneAdded(items: seq<Gate>, from: nat, gates: set<Gate>)
    requires from <= |items|
    ensures Added(items, from, from, gates, gates)
  {
  }

  lemma OneAdded(items: seq<Gate>, from: nat, i: nat, gates: set<Gate>, more: set<Gate>, evenMore: set<Gate>)
    requires i < |items| && Added(items, from, i, gates, more) && more <= evenMore <= more + {items[i]}
    ensures Added(items, from, i + 1, gates, evenMore)
  {
    assert items[from..i + 1] == items[from..i] + [items[i]];
  }

  // ── The event loop of a wave ─────────────────────────────────────────────

  /** Results recorded so far are the outcomes of their gates. */
  ghost predicate Recording(results: seq<Option<Result>>, items: seq<Gate>, w: World, hits: set<Gate>) {
    && |results| == |items|
    && forall i | 0 <= i < |items| && results[i].Some? ::
         results[i].value == Result(items[i], Outcome(items[i], w, hits))
  }

  /** Gates launched later do not change what is recorded. */
  lemma RecordingLater(
      results: seq<Option<Result>>, items: seq<Gate>, w: World, hits: set<Gate>, more: set<Gate>, from: nat, to: nat)
    requires Recording(results, items, w, hits) && Distinct(items) && from <= to <= |items|
    requires hits <= more <= hits + Elements(items[from..to])
    requires forall i | from <= i < |items| :: results[i].None?
    ensures Recording(results, items, w, more)
  {
    forall i | 0 <= i < from ensures items[i] in more <==> items[i] in hits {
      assert forall j | from <= j < to :: items[j] != items[i];
    }
  }

  lemma NothingLaunched(items: seq<Gate>, w: World, results: seq<Option<Result>>, running: set<nat>, limit: nat, m: nat)
    requires |results| == |items| && forall r <- results :: r.None?
    requires |running| <= limit
    ensures InFlight(items, w, 0, {}, {}, []) && Running(items, running, {}, [], limit)
    ensures Recording(results, items, w, {}) && Busy([], Elements(items), m)
  {
    NothingLogged(w);
    assert forall i | 0 <= i < |items| :: results[i] in results;
  }

  /** Gates launched for the items `from` to `to` change nothing that is recorded. */
  lemma AfterLookUp(
      results: seq<Option<Result>>, items: seq<Gate>, w: World, hits: set<Gate>, more: set<Gate>, from: nat, to: nat)
    requires Recording(results, items, w, hits) && Distinct(items) && Added(items, from, to, hits, more)
    requires forall i | from <= i < |items| :: results[i].None?
    ensures Recording(results, items, w, more)
  {
    hide Recording;
    RecordingLater(results, items, w, hits, more, from, to);
  }

  lemma FewerRunning(
      items: seq<Gate>, w: World, running: set<nat>, pending: set<Gate>, events: seq<Event>, limit: nat, g: Gate)
    requires Running(items, running, pending, events, limit) && g in pending
    ensures Running(items, running, pending - {g}, events + [EndOf(g, w)], limit)
  {
    hide Covered, Paced;
    CoveredSize(items, running, pending);
    FewerCovered(items, running, pending, g);
    PacedStep(events, pending, EndOf(g, w), pending - {g}, limit);
  }

  lemma FewerCovered(items: seq<Gate>, running: set<nat>, pending: set<Gate>, g: Gate)
    requires Covered(items, running, pending)
    ensures Covered(items, running, pending - {g})
  {
  }

  /** A result is recorded for an item whose gate has come to an end. */
  lemma OneRecorded(
      results: seq<Option<Result>>, items: seq<Gate>, w: World, hits: set<Gate>,
      running: set<nat>, pending: set<Gate>, idx: nat)
    requires Recording(results, items, w, hits) && Covered(items, running, pending)
    requires idx < |items| && items[idx] !in pending
    ensures Recording(
              results[idx := Some(Result(items[idx], Outcome(items[idx], w, hits)))], items, w, hits)
    ensures Covered(items, running - {idx}, pending)
  {
    hide Outcome;
    forall g | g in pending ensures exists i <- running - {idx} :: i < |items| && items[i] == g {
      var i :| i in running && i < |items| && items[i] == g;
      assert i in running - {idx};
    }
  }

  /** When nothing is in flight any more every launched gate has come to an end. */
  lemma AllEnded(items: seq<Gate>, w: World, hits: set<Gate>, pending: set<Gate>, events: seq<Event>, limit: nat)
    requires InFlight(items, w, |items|, hits, pending, events) && Running(items, {}, pending, events, limit)
    ensures hits <= Elements(items) && forall g <- hits :: KeyOf(g, w).Some?
    ensures Logged(events, Log(w, hits, Elements(items) - hits, Elements(items) - hits))
    ensures Bounded(events, limit) && Open(events) == 0
  {
    hide Logged, Log, KeyOf, Bounded, Open;
    assert items[..|items|] == items;
    assert pending == {};
    assert Elements(items) - hits - pending == Elements(items) - hits;
  }

  lemma RecordedAll(results: seq<Option<Result>>, items: seq<Gate>, w: World, hits: set<Gate>)
    requires Recording(results, items, w, hits) && forall i | 0 <= i < |results| :: results[i].Some?
    ensures |results| == |items|
    ensures forall i | 0 <= i < |items| :: results[i].value == Result(items[i], Outcome(items[i], w, hits))
  {
  }

  /** A gate that is being run comes to an end, and a pass is stored at once. */
  method RunEnds(
      cache: Cache, items: seq<Gate>, w: World, next: nat, hits: set<Gate>, pending0: set<Gate>,
      ghost base: seq<Event>, ghost events0: seq<Event>, ghost running: set<nat>, ghost limit: nat, ghost m: nat,
      g: Gate)
    returns (pending: set<Gate>, ghost events: seq<Event>)
    requires cache.Valid() && cache.history == base + events0
    requires Distinct(items) && IdsDiffer(Elements(items)) && g in pending0
    requires InFlight(items, w, next, hits, pending0, events0) && Running(items, running, pending0, events0, limit)
    requires m <= next && Busy(events0, Elements(items), m)
    modifies cache
    ensures cache.Valid() && cache.history == base + events && pending == pending0 - {g}
    ensures InFlight(items, w, next, hits, pending, events) && Running(items, running, pending, events, limit)
    ensures Busy(events, Elements(items), m)
  {
    hide InFlight, IdsDiffer, Distinct, Elements, KeyOf, IsHistory, IndexAfter, Running, Busy, BegunOf;
    LaunchedHaveBegun(items, w, next, hits, pending0, events0);
    BusyMore(events0, EndOf(g, w), Elements(items), m);
    OneEnd(items, w, next, hits, pending0, events0, g);
    FewerRunning(items, w, running, pending0, events0, limit, g);
    cache.Finish(g.id, KeyOf(g, w), w.passes(g), w.passedAt(g));
    pending, events := pending0 - {g}, events0 + [EndOf(g, w)];
  }

  /** A promise that has fulfilled reaches the dispatcher, which starts the next items, and
      each of them is looked up at once. */
  method Callback(
      cache: Cache, d: Dispatcher<Result>, items: seq<Gate>, w: World, hits0: set<Gate>, pending0: set<Gate>,
      ghost base: seq<Event>, ghost events0: seq<Event>, ghost m: nat, idx: nat)
    returns (hits: set<Gate>, pending: set<Gate>, ghost events: seq<Event>)
    requires cache.Valid() && cache.history == base + events0
    requires Distinct(items) && IdsDiffer(Elements(items)) && |items| == d.n == d.results.Length && d.limit >= 1
    requires Settled(d.View(), d.n, d.limit) && idx in d.running && idx < |items| && items[idx] !in pending0
    requires InFlight(items, w, d.next, hits0, pending0, events0)
    requires Running(items, d.running, pending0, events0, d.limit) && Recording(d.View().results, items, w, hits0)
    requires Busy(events0, Elements(items), m)
    modifies cache, d, d.results
    ensures cache.Valid() && cache.history == base + events
    ensures Settled(d.View(), d.n, d.limit) && d.finished == old(d.finished) + 1
    ensures InFlight(items, w, d.next, hits, pending, events)
    ensures Running(items, d.running, pending, events, d.limit) && Recording(d.View().results, items, w, hits)
    ensures Busy(events, Elements(items), m)
  {
    hide Settled, Launch, Enabled, Start, Fulfil, KeyOf, Outcome, Paced, Busy;
    hide InFlight, Covered, Recording, Elements, IdsDiffer, Distinct, Added, IsHistory, IndexAfter;
    var from, r := d.next, Result(items[idx], Outcome(items[idx], w, hits0));
    ghost var s := d.View();
    OneRecorded(s.results, items, w, hits0, s.running, pending0, idx);
    d.OnFulfilled(idx, r);
    FulfilMeans(s, d.n, d.limit, idx, r);
    SettledMeans(d.View(), d.n, d.limit);
    CoveredMore(items, s.running - {idx}, pending0, d.running, from, d.next);
    assert Running(items, d.running, pending0, events0, d.limit);
    hide Running;
    hits, pending, events := LookUp(
      cache, items, w, from, d.next, hits0, pending0, base, events0, d.running, d.limit, m);
    AfterLookUp(d.View().results, items, w, hits0, hits, from, d.next);
  }

  /** The gates of a wave run with at most `limit` in flight. Whatever is in flight goes on
      in an arbitrary order: a gate that is being run comes to an end, and its pass is
      stored at once; or a promise that has fulfilled reaches the dispatcher, which starts
      the next items, and each of them looks itself up at once. */
  method RunGates(cache: Cache, items: seq<Gate>, w: World, limit: nat)
    returns (results: seq<Result>, hits: set<Gate>, ghost events: seq<Event>)
    requires cache.Valid() && limit >= 1 && Distinct(items) && IdsDiffer(Elements(items))
    modifies cache
    ensures cache.Valid() && cache.history == old(cache.history) + events
    ensures hits <= Elements(items) && forall g <- hits :: KeyOf(g, w).Some?
    ensures Logged(events, Log(w, hits, Elements(items) - hits, Elements(items) - hits))
    ensures Bounded(events, limit) && Open(events) == 0 && Busy(events, Elements(items), Least(limit, |items|))
    ensures |results| == |items|
    ensures forall i | 0 <= i < |items| :: results[i] == Result(items[i], Outcome(items[i], w, hits))
  {
    hide Settled, Launch, Enabled, Start, Fulfil, KeyOf, Outcome, Running, Bounded, Open, Busy;
    hide InFlight, Covered, Recording, Elements, IdsDiffer, Distinct, Added, IsHistory, IndexAfter;
    var n := |items|;
    var d := new Dispatcher<Result>(n, limit);
    StartSettled<Result>(n, limit);
    StartMeans<Result>(n, limit);
    SettledMeans(d.View(), n, limit);
    ghost var m := Least(limit, n);
    NothingLaunched(items, w, d.View().results, d.running, limit, m);
    ghost var base := cache.history;
    var pending: set<Gate>;
    hits, pending, events := LookUp(cache, items, w, 0, d.next, {}, {}, base, [], d.running, limit, m);
    AfterLookUp(d.View().results, items, w, {}, hits, 0, d.next);
    while d.resolved == 0
      invariant d.n == n && d.limit == limit && fresh(d) && fresh(d.results) && d.results.Length == n
      invariant Settled(d.View(), n, limit)
      invariant cache.Valid() && cache.history == base + events
      invariant InFlight(items, w, d.next, hits, pending, events)
      invariant Running(items, d.running, pending, events, limit) && Recording(d.View().results, items, w, hits)
      invariant Busy(events, Elements(items), m)
      decreases n - d.finished, |pending|
    {
      SettledMeans(d.View(), n, limit);
      var idx :| idx in d.running;
      if items[idx] in pending {
        pending, events :=
          RunEnds(cache, items, w, d.next, hits, pending, base, events, d.running, limit, m, items[idx]);
      } else {
        hits, pending, events := Callback(cache, d, items, w, hits, pending, base, events, m, idx);
      }
    }
    SettledMeans(d.View(), n, limit);
    AllEnded(items, w, hits, pending, events, limit);
    var recorded := d.results[..];
    RecordedAll(recorded, items, w, hits);
    results := seq(n, i requires 0 <= i < n && |recorded| == n && recorded[i].Some? => recorded[i].value);
  }
}
