/** The bounded-concurrency dispatcher of the quality runner: its counters as a state
    machine over completions in any order, and the callbacks that implement it. */
module Scheduler {
  import opened Wire

  // ── The state machine ────────────────────────────────────────────────────

  /** What the dispatcher knows: the next item to start, the counters, the results so far
      and how often the promise was resolved. `running` are the items in flight, `started`
      every call of the runner so far, in order. */
  datatype State<R> = State(
    next: nat, active: nat, finished: nat, results: seq<Option<R>>, resolved: nat,
    running: set<nat>, started: seq<nat>)

  function Least(x: int, y: int): int { if x <= y then x else y }

  function Between(lo: nat, hi: nat): (s: set<nat>)
    requires lo <= hi
    ensures forall i :: i in s <==> lo <= i < hi
    decreases hi - lo
  {
    if lo == hi then {} else Between(lo, hi - 1) + {hi - 1}
  }

  lemma {:induction false} BetweenSize(lo: nat, hi: nat)
    requires lo <= hi
    ensures |Between(lo, hi)| == hi - lo
    decreases hi - lo
  {
    if lo < hi {
      BetweenSize(lo, hi - 1);
    }
  }

  /** The `k` numbers from `lo` on. */
  function Range(lo: nat, k: nat): (s: seq<nat>)
    ensures |s| == k && forall i | 0 <= i < k :: s[i] == lo + i
  {
    seq(k, i requires 0 <= i < k => lo + i)
  }

  function Nothing<R>(n: nat): (results: seq<Option<R>>)
    ensures |results| == n
  {
    seq(n, _ => None)
  }

  /** Start items while there is room. */
  function Launch<R>(s: State<R>, n: nat, limit: nat): State<R>
    requires s.active <= limit && s.next <= n
  {
    var k := Least(limit - s.active, n - s.next);
    s.(next := s.next + k, active := s.active + k, running := s.running + Between(s.next, s.next + k),
       started := s.started + Range(s.next, k))
  }

  function Start<R>(n: nat, limit: nat): State<R> {
    if n == 0 then State(0, 0, 0, [], 1, {}, [])
    else Launch(State(0, 0, 0, Nothing(n), 0, {}, []), n, limit)
  }

  /** The promise of item `idx` can fulfil next. */
  predicate Enabled<R>(s: State<R>, n: nat, limit: nat, idx: nat) {
    idx in s.running && idx < |s.results| && 1 <= s.active <= limit && s.next <= n
  }

  /** The bookkeeping for item `idx`. */
  function Finish<R>(s: State<R>, idx: nat, r: R): State<R>
    requires s.active >= 1 && idx < |s.results|
  {
    s.(results := s.results[idx := Some(r)], active := s.active - 1, finished := s.finished + 1,
       running := s.running - {idx})
  }

  /** Item `idx` is in flight and fulfils with `r`. */
  function Fulfil<R>(s: State<R>, n: nat, limit: nat, idx: nat, r: R): State<R>
    requires Enabled(s, n, limit, idx)
  {
    var done := Finish(s, idx, r);
    if done.finished == n then done.(resolved := s.resolved + 1) else Launch(done, n, limit)
  }

  ghost predicate Counted<R>(s: State<R>, n: nat, limit: nat) {
    && s.finished <= n && |s.results| == n
    && s.active == Least(limit, n - s.finished)
    && s.next == s.finished + s.active
    && |s.running| == s.active
    && s.resolved == if s.finished == n then 1 else 0
  }

  ghost predicate Recorded<R>(s: State<R>) {
    && (forall i <- s.running :: i < s.next)
    && (forall i | 0 <= i < |s.results| :: s.results[i].Some? <==> i < s.next && i !in s.running)
  }

  /** The runner was called once for each item below `next`, in item order. */
  ghost predicate StartedInOrder<R>(s: State<R>) {
    s.started == Range(0, s.next)
  }

  /** What holds whenever no callback is running: min(limit, items left) in flight, every
      started item in flight or recorded and started once, resolved once everything has
      finished. */
  ghost predicate Settled<R>(s: State<R>, n: nat, limit: nat) {
    Counted(s, n, limit) && Recorded(s) && StartedInOrder(s)
  }

  lemma LaunchAdds<R>(s: State<R>, n: nat, limit: nat)
    requires s.active <= limit && s.next <= n
    requires |s.running| == s.active && |s.results| == n && Recorded(s) && StartedInOrder(s)
    ensures var t := Launch(s, n, limit);
            |t.running| == t.active && Recorded(t) && StartedInOrder(t)
  {
    hide Between, Recorded;
    LaunchRecords(s, n, limit);
    RunningIsStarted(s);
    var k := Least(limit - s.active, n - s.next);
    var added := Between(s.next, s.next + k);
    BetweenSize(s.next, s.next + k);
    DisjointSize(s.running, added);
  }

  lemma RunningIsStarted<R>(s: State<R>)
    requires Recorded(s)
    ensures forall i <- s.running :: i < s.next
  {
  }

  lemma LaunchRecords<R>(s: State<R>, n: nat, limit: nat)
    requires s.active <= limit && s.next <= n && |s.results| == n && Recorded(s)
    ensures Recorded(Launch(s, n, limit))
  {
    hide Between;
  }

  lemma DisjointSize(a: set<nat>, b: set<nat>)
    requires a !! b
    ensures |a + b| == |a| + |b|
  {
  }

  lemma StartSettled<R>(n: nat, limit: nat)
    requires limit >= 1
    ensures Settled(Start<R>(n, limit), n, limit)
  {
    if n > 0 {
      LaunchAdds<R>(State(0, 0, 0, Nothing(n), 0, {}, []), n, limit);
    }
  }

  /** Every completion, of any item in flight, leads from a settled state to a settled
      state. */
  lemma FulfilSettled<R>(s: State<R>, n: nat, limit: nat, idx: nat, r: R)
    requires limit >= 1 && Settled(s, n, limit) && idx in s.running
    ensures Enabled(s, n, limit, idx) && s.finished < n
    ensures Settled(Fulfil(s, n, limit, idx, r), n, limit)
  {
    assert s.running != {};
    var done := Finish(s, idx, r);
    assert |done.running| == s.active - 1;
    assert Recorded(done);
    if done.finished < n {
      LaunchAdds(done, n, limit);
    }
  }

  // ── Whole runs ───────────────────────────────────────────────────────────

  datatype Completion<R> = Completion(idx: nat, value: R)

  /** The state after the completions `run`, if each was of an item in flight. */
  function After<R>(n: nat, limit: nat, run: seq<Completion<R>>): Option<State<R>>
    decreases |run|
  {
    if run == [] then Some(Start(n, limit))
    else
      var last := run[|run| - 1];
      var before :- After(n, limit, run[..|run| - 1]);
      if Enabled(before, n, limit, last.idx) then Some(Fulfil(before, n, limit, last.idx, last.value)) else None
  }

  /** A run of `k` completions has finished `k` items, keeps min(limit, items left) in
      flight, and has recorded each completion at its own index. */
  lemma {:induction false} RunInvariant<R>(n: nat, limit: nat, run: seq<Completion<R>>)
    requires limit >= 1 && After(n, limit, run).Some?
    ensures var s := After(n, limit, run).value;
            Settled(s, n, limit) && s.finished == |run| && Holds(s.results, run)
    decreases |run|
  {
    hide Settled, Holds, Launch, Fulfil, Enabled, Start;
    if run == [] {
      StartSettled<R>(n, limit);
      StartHolds<R>(n, limit);
    } else {
      var init, last := run[..|run| - 1], run[|run| - 1];
      var before := After(n, limit, init).value;
      RunInvariant(n, limit, init);
      OneMore(before, n, limit, init, last);
      assert run == init + [last];
    }
  }

  /** The completions `run` are recorded in `results`, each once and nothing else. */
  ghost predicate Holds<R>(results: seq<Option<R>>, run: seq<Completion<R>>) {
    && (forall c <- run :: c.idx < |results| && results[c.idx] == Some(c.value))
    && (forall i | 0 <= i < |results| && results[i].Some? :: exists c <- run :: c.idx == i)
    && (forall j, k | 0 <= j < k < |run| :: run[j].idx != run[k].idx)
  }

  lemma StartHolds<R>(n: nat, limit: nat)
    ensures Holds(Start<R>(n, limit).results, []) && Start<R>(n, limit).finished == 0
  {
  }

  lemma OneMore<R>(before: State<R>, n: nat, limit: nat, init: seq<Completion<R>>, last: Completion<R>)
    requires limit >= 1 && Settled(before, n, limit) && Holds(before.results, init)
    requires Enabled(before, n, limit, last.idx)
    ensures var s := Fulfil(before, n, limit, last.idx, last.value);
            && Settled(s, n, limit)
            && s.finished == before.finished + 1
            && Holds(s.results, init + [last])
  {
    FulfilSettled(before, n, limit, last.idx, last.value);
    HoldsOneMore(before, init, last);
  }

  lemma HoldsOneMore<R>(before: State<R>, init: seq<Completion<R>>, last: Completion<R>)
    requires Holds(before.results, init)
    requires last.idx in before.running && Recorded(before) && last.idx < |before.results|
    ensures Holds(before.results[last.idx := Some(last.value)], init + [last])
  {
    forall c | c in init ensures c.idx != last.idx {
      assert before.results[c.idx].Some?;
    }
    assert forall c :: c in init + [last] <==> c in init || c == last;
  }

  /** No run stalls, and none goes on for ever: while fewer than `n` items have finished
      some item is in flight; after `n` completions nothing is, the runner has been
      called exactly once for each of the `n` items, and the promise has been resolved
      exactly once. */
  lemma NeverStalls<R>(n: nat, limit: nat, run: seq<Completion<R>>)
    requires limit >= 1 && After(n, limit, run).Some?
    ensures var s := After(n, limit, run).value;
            && |run| <= n
            && (|run| < n ==> s.resolved == 0 && exists idx :: Enabled(s, n, limit, idx))
            && (|run| == n ==> s.resolved == 1 && s.running == {} && s.started == Range(0, n))
  {
    RunInvariant(n, limit, run);
    var s := After(n, limit, run).value;
    if |run| < n {
      assert |s.running| >= 1;
      var idx :| idx in s.running;
      assert Enabled(s, n, limit, idx);
    }
  }

  /** Whatever the order of completions, the final array holds each item's own result. */
  lemma ResultsInItemOrder<T, R>(items: seq<T>, f: T -> R, limit: nat, run: seq<Completion<R>>)
    requires limit >= 1 && After(|items|, limit, run).Some? && |run| == |items|
    requires forall c <- run | c.idx < |items| :: c.value == f(items[c.idx])
    ensures var s := After(|items|, limit, run).value;
            |s.results| == |items| && forall i | 0 <= i < |items| :: s.results[i] == Some(f(items[i]))
  {
    RunInvariant(|items|, limit, run);
    NeverStalls(|items|, limit, run);
    var s := After(|items|, limit, run).value;
    forall i | 0 <= i < |items| ensures s.results[i] == Some(f(items[i])) {
      assert s.results[i].Some?;
      var c :| c in run && c.idx == i;
    }
  }

  // ── The callbacks ────────────────────────────────────────────────────────

  class Dispatcher<R(==)> {
    const n: nat
    const limit: nat
    const results: array<Option<R>>
    var next: nat
    var active: nat
    var finished: nat
    var resolved: nat
    /** The items whose promise is pending, which the event loop keeps. */
    var running: set<nat>
    /** The items the runner was called for. */
    ghost var started: seq<nat>

    ghost function View(): State<R>
      reads this, results
    {
      State(next, active, finished, results[..], resolved, running, started)
    }

    constructor (n: nat, limit: nat)
      requires limit >= 1
      ensures this.n == n && this.limit == limit
      ensures fresh(results) && results.Length == n
      ensures View() == Start(n, limit)
    {
      this.n, this.limit := n, limit;
      results := new Option<R>[n](_ => None);
      next, active, finished, running, started := 0, 0, 0, {}, [];
      resolved := if n == 0 then 1 else 0;
      new;
      assert results[..] == Nothing(n);
      if n > 0 {
        LaunchNext();
      }
    }

    method LaunchNext()
      requires active <= limit && next <= n
      modifies this
      ensures View() == Launch(old(View()), n, limit)
      ensures finished == old(finished)
    {
      ghost var from := next;
      assert running + Between(from, from) == running;
      while active < limit && next < n
        invariant from <= next <= n && active <= limit
        invariant active - next == old(active) - from
        invariant finished == old(finished) && resolved == old(resolved)
        invariant running == old(running) + Between(from, next)
        invariant started == old(started) + Range(from, next - from)
        decreases n - next
      {
        var idx := next;
        next := next + 1;
        active := active + 1;
        assert Between(from, next) == Between(from, idx) + {idx};
        running := running + {idx};
        assert Range(from, next - from) == Range(from, idx - from) + [idx];
        started := started + [idx];
      }
    }

    method OnFulfilled(idx: nat, r: R)
      requires Settled(View(), n, limit) && limit >= 1 && idx in running
      requires results.Length == n
      modifies this, results
      ensures finished == old(finished) + 1 && results[..] == old(results[..])[idx := Some(r)]
      ensures Enabled(old(View()), n, limit, idx) && View() == Fulfil(old(View()), n, limit, idx, r)
      ensures Settled(View(), n, limit)
    {
      hide Settled, Launch;
      FulfilSettled(View(), n, limit, idx, r);
      results[idx] := Some(r);
      active := active - 1;
      finished := finished + 1;
      running := running - {idx};
      assert results[..] == old(results[..])[idx := Some(r)];
      if finished == n {
        resolved := resolved + 1;
      } else {
        LaunchNext();
      }
    }
  }

  /** Until the promise is resolved some promise is pending; then every result is there. */
  lemma SettledMeans<R>(s: State<R>, n: nat, limit: nat)
    requires limit >= 1 && Settled(s, n, limit)
    ensures s.resolved == 0 ==> s.running != {} && s.finished < n
    ensures s.resolved != 0 ==> s.running == {} && s.next == n && forall i | 0 <= i < n :: s.results[i].Some?
    ensures |s.results| == n && Least(limit, n) <= s.next <= n
    ensures |s.running| <= limit && forall i <- s.running :: i < s.next
    ensures forall i | 0 <= i < n && s.results[i].Some? :: i < s.next && i !in s.running
  {
  }

  /** What a start launches and what a completion launches in turn. */
  lemma StartMeans<R>(n: nat, limit: nat)
    ensures var s := Start<R>(n, limit);
            s.next <= n && s.running == Between(0, s.next) && forall r <- s.results :: r.None?
  {
    if n > 0 {
      assert Launch<R>(State(0, 0, 0, Nothing(n), 0, {}, []), n, limit).running == Between(0, Least(limit, n));
    }
  }

  lemma FulfilMeans<R>(s: State<R>, n: nat, limit: nat, idx: nat, r: R)
    requires Enabled(s, n, limit, idx)
    ensures var t := Fulfil(s, n, limit, idx, r);
            && s.next <= t.next <= n
            && t.running == (s.running - {idx}) + Between(s.next, t.next)
            && t.results == s.results[idx := Some(r)]
  {
    assert Between(s.next, s.next) == {};
  }

  ghost predicate Faithful<T, R>(results: seq<Option<R>>, items: seq<T>, runner: T -> R) {
    |results| == |items| && forall i | 0 <= i < |items| && results[i].Some? :: results[i].value == runner(items[i])
  }

  /** The event loop fulfils pending items in an arbitrary order until the promise is
      resolved; the results come out in item order. */
  method RunConcurrent<T, R(==)>(items: seq<T>, limit: nat, runner: T -> R) returns (r: seq<R>)
    requires limit >= 1
    ensures |r| == |items|
    ensures forall i | 0 <= i < |items| :: r[i] == runner(items[i])
  {
    hide Settled, Launch, Enabled, Start;
    var n := |items|;
    var d := new Dispatcher<R>(n, limit);
    StartSettled<R>(n, limit);
    NothingStarted<R>(n, limit);
    while d.resolved == 0
      invariant d.n == n && d.limit == limit && fresh(d) && fresh(d.results) && d.results.Length == n
      invariant Settled(d.View(), n, limit) && Faithful(d.View().results, items, runner)
      decreases n - d.finished
    {
      SettledMeans(d.View(), n, limit);
      var idx :| idx in d.running;
      d.OnFulfilled(idx, runner(items[idx]));
    }
    SettledMeans(d.View(), n, limit);
    var results := d.results[..];
    r := seq(n, i requires 0 <= i < n && |results| == n && results[i].Some? => results[i].value);
  }

  lemma NothingStarted<R>(n: nat, limit: nat)
    ensures |Start<R>(n, limit).results| == n
    ensures forall i | 0 <= i < n :: Start<R>(n, limit).results[i].None?
  {
  }
}
