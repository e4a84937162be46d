/** The cache of passed gates across runs: the index as a mutable store, the gate runner
    in front of it, and where every cached pass comes from. */
module GateCache {
  import opened Wire
  import opened Text

  type Key = string

  datatype Entry = Entry(gateId: string, passed: bool, storedAt: string)

  /** One thing that happens to the cache. A gate that is launched is either reported as a
      cached pass or really started, and then it passes or fails. Events of different
      gates may interleave in any order; each is atomic. */
  datatype Event =
    | CachedPass(gateId: string, hit: Key)
    | RealStart(gateId: string, key: Option<Key>)
    | RealPass(gateId: string, key: Option<Key>, at: string)
    | RealFail(gateId: string, key: Option<Key>)
    | Cleared

  /** The index after an event. */
  function Next(index: map<Key, Entry>, e: Event): map<Key, Entry> {
    match e
    case RealPass(gateId, Some(key), at) => index[key := Entry(gateId, true, at)]
    case Cleared => map[]
    case _ => index
  }

  /** A real pass stored under the key. */
  predicate Stores(e: Event, key: Key) { e.RealPass? && e.key == Some(key) }

  /** A cached pass is reported on a stored passing entry, and a gate is really started only
      without one. */
  predicate Possible(index: map<Key, Entry>, e: Event) {
    match e
    case CachedPass(_, hit) => hit in index && index[hit].passed
    case RealStart(_, Some(key)) => !(key in index && index[key].passed)
    case _ => true
  }

  function IndexAfter(history: seq<Event>): map<Key, Entry> {
    if history == [] then map[]
    else Next(IndexAfter(history[..|history| - 1]), history[|history| - 1])
  }

  /** Any sequence of runs that starts from an empty cache. */
  ghost predicate IsHistory(history: seq<Event>) {
    forall i | 0 <= i < |history| :: Possible(IndexAfter(history[..i]), history[i])
  }

  /** `history[i]` stored an entry under `key` that nothing after it has cleared or
      replaced. */
  ghost predicate StoredAt(history: seq<Event>, key: Key, i: nat) {
    && i < |history| && Stores(history[i], key)
    && (forall j | i < j < |history| :: !history[j].Cleared?)
    && (forall j | i < j < |history| :: !Stores(history[j], key))
  }

  lemma {:induction false} IndexIff(history: seq<Event>, key: Key)
    ensures key in IndexAfter(history) <==> exists i: nat :: StoredAt(history, key, i)
    ensures forall i: nat | StoredAt(history, key, i) ::
              key in IndexAfter(history) && IndexAfter(history)[key] == Entry(history[i].gateId, true, history[i].at)
    decreases |history|
  {
    if history != [] {
      var n := |history| - 1;
      var init, last := history[..n], history[n];
      IndexIff(init, key);
      assert history == init + [last];
      if Stores(last, key) {
        assert StoredAt(history, key, n);
        assert Stores(history[n], key);
      } else if !last.Cleared? {
        forall i: nat ensures StoredAt(history, key, i) <==> StoredAt(init, key, i) {
          StoredInit(init, last, key, i);
        }
      }
      if last.Cleared? {
        forall i: nat ensures !StoredAt(history, key, i) {
          assert i < n ==> history[n].Cleared?;
        }
      }
    }
  }

  lemma StoredInit(init: seq<Event>, last: Event, key: Key, i: nat)
    requires !last.Cleared? && !Stores(last, key)
    ensures StoredAt(init + [last], key, i) <==> StoredAt(init, key, i)
  {
    var history := init + [last];
    assert forall j | 0 <= j < |init| :: history[j] == init[j];
  }

  /** Only passes are cached, over any sequence of runs. */
  lemma OnlyPassesAreCached(history: seq<Event>)
    ensures forall key <- IndexAfter(history) :: IndexAfter(history)[key].passed
  {
    forall key | key in IndexAfter(history) ensures IndexAfter(history)[key].passed {
      IndexIff(history, key);
      var i: nat :| StoredAt(history, key, i);
    }
  }

  /** A cached pass can be reported under a key exactly when an earlier real run passed and
      stored that key and the cache has not been cleared since. */
  lemma CachedPassIff(history: seq<Event>, gateId: string, key: Key)
    ensures Possible(IndexAfter(history), CachedPass(gateId, key)) <==>
            exists i | 0 <= i < |history| ::
              && Stores(history[i], key)
              && forall j | i < j < |history| :: !history[j].Cleared?
  {
    IndexIff(history, key);
    OnlyPassesAreCached(history);
    if i :| 0 <= i < |history| && Stores(history[i], key)
            && forall j | i < j < |history| :: !history[j].Cleared?
    {
      var last := LatestStore(history, key, i);
    }
    if key in IndexAfter(history) {
      var i: nat :| StoredAt(history, key, i);
    }
  }

  lemma {:induction false} LatestStore(history: seq<Event>, key: Key, i: nat) returns (k: nat)
    requires i < |history| && Stores(history[i], key)
    requires forall j | i < j < |history| :: !history[j].Cleared?
    ensures StoredAt(history, key, k)
    decreases |history| - i
  {
    if j :| i < j < |history| && Stores(history[j], key) {
      k := LatestStore(history, key, j);
    } else {
      k := i;
    }
  }

  /** Every cached pass in every history traces back to a real pass of a gate that used the
      same key, earlier and with no clearing in between. */
  lemma CachedPassIsEarned(history: seq<Event>, at: nat) returns (from: nat)
    requires IsHistory(history) && at < |history| && history[at].CachedPass?
    ensures from < at && Stores(history[from], history[at].hit)
    ensures forall j | from < j < at :: !history[j].Cleared?
  {
    var before := history[..at];
    assert Possible(IndexAfter(before), history[at]);
    CachedPassIff(before, history[at].gateId, history[at].hit);
    from :| 0 <= from < |before| && Stores(before[from], history[at].hit)
            && forall j | from < j < |before| :: !before[j].Cleared?;
  }

  /** The index holds exactly what it held before and what has been stored since, as long
      as nothing clears it. */
  lemma {:induction false} IndexGrows(base: seq<Event>, events: seq<Event>, key: Key)
    requires forall e <- events :: !e.Cleared?
    ensures key in IndexAfter(base + events) <==> key in IndexAfter(base) || exists e <- events :: Stores(e, key)
    decreases |events|
  {
    if events == [] {
      assert base + events == base;
    } else {
      var init, last := events[..|events| - 1], events[|events| - 1];
      IndexGrows(base, init, key);
      assert events == init + [last];
      assert forall e :: e in events <==> e in init || e == last;
      var all := base + events;
      assert all[..|all| - 1] == base + init && all[|all| - 1] == last;
      assert IndexAfter(all) == Next(IndexAfter(base + init), last);
      assert (exists e <- events :: Stores(e, key)) <==> (exists e <- init :: Stores(e, key)) || Stores(last, key);
    }
  }

  // ── Keys ─────────────────────────────────────────────────────────────────

  const KEY_HEADER := "schema:1\ngate:"

  /** The text a key is the digest of: the schema and the id of the gate, one line each, and
      then the runtime, the mode and every declared input, which are one string here. */
  function Preimage(gateId: string, inputs: string): string {
    KEY_HEADER + (gateId + (['\n'] + inputs))
  }

  /** The gate and its inputs can be told from the text, for ids that are one line. */
  lemma PreimageIff(a: string, inputsA: string, b: string, inputsB: string)
    requires '\n' !in a && '\n' !in b
    ensures Preimage(a, inputsA) == Preimage(b, inputsB) <==> a == b && inputsA == inputsB
  {
    if Preimage(a, inputsA) == Preimage(b, inputsB) {
      var restA, restB := a + (['\n'] + inputsA), b + (['\n'] + inputsB);
      assert restA == Preimage(a, inputsA)[|KEY_HEADER|..];
      assert restB == Preimage(b, inputsB)[|KEY_HEADER|..];
      FirstAtOf(a, inputsA, '\n');
      FirstAtOf(b, inputsB, '\n');
      assert a == restA[..|a|] && b == restB[..|b|];
      assert inputsA == restA[|a| + 1..] && inputsB == restB[|b| + 1..];
    }
  }

  type Digest = string -> Key

  /** The key an event looked up or stored. */
  function KeyOfEvent(e: Event): Option<Key> {
    match e
    case CachedPass(_, hit) => Some(hit)
    case RealPass(_, key, _) => key
    case _ => None
  }

  /** The key of the event, if it has one, was computed from its gate and `inputs`. */
  predicate Keyed(e: Event, inputs: string, digest: Digest) {
    KeyOfEvent(e).Some? ==> '\n' !in e.gateId && KeyOfEvent(e) == Some(digest(Preimage(e.gateId, inputs)))
  }

  /** The digest does not confuse the texts of the two events. */
  predicate ToldApart(e: Event, inputs: string, e': Event, inputs': string, digest: Digest) {
    KeyOfEvent(e).Some? && KeyOfEvent(e').Some? ==>
      var text, text' := Preimage(e.gateId, inputs), Preimage(e'.gateId, inputs');
      digest(text) == digest(text') ==> text == text'
  }

  /** With keys computed from id and `inputs[i]` at event `i`, a cached pass is an earlier real
      pass of the same gate on the same inputs, unless the digest confuses two texts that
      occur in the history. */
  lemma CachedPassIsOwn(history: seq<Event>, inputs: seq<string>, digest: Digest, at: nat) returns (from: nat)
    requires IsHistory(history) && at < |history| && history[at].CachedPass?
    requires |inputs| == |history| && forall i | 0 <= i < |history| :: Keyed(history[i], inputs[i], digest)
    requires forall i, j | 0 <= i < |history| && 0 <= j < |history| ::
               ToldApart(history[i], inputs[i], history[j], inputs[j], digest)
    ensures from < at && history[from].RealPass? && history[from].gateId == history[at].gateId
    ensures inputs[from] == inputs[at] && KeyOfEvent(history[from]) == KeyOfEvent(history[at])
  {
    from := CachedPassIsEarned(history, at);
    assert Keyed(history[at], inputs[at], digest) && Keyed(history[from], inputs[from], digest);
    assert ToldApart(history[at], inputs[at], history[from], inputs[from], digest);
    PreimageIff(history[at].gateId, inputs[at], history[from].gateId, inputs[from]);
  }

  // ── The store and the gate runner ────────────────────────────────────────

  class Cache {
    var index: map<Key, Entry>
    ghost var history: seq<Event>

    /** The index is the one the history leads to, and the history is possible. */
    ghost predicate Valid()
      reads this
    {
      IsHistory(history) && index == IndexAfter(history)
    }

    constructor ()
      ensures Valid() && history == [] && index == map[]
    {
      index, history := map[], [];
    }

    method LookupCache(key: Key) returns (r: Option<Entry>)
      ensures r == if key in index then Some(index[key]) else None
    {
      r := if key in index then Some(index[key]) else None;
    }

    method StoreCache(key: Key, gateId: string, at: string)
      requires Valid()
      modifies this
      ensures Valid() && history == old(history) + [RealPass(gateId, Some(key), at)]
    {
      index := index[key := Entry(gateId, true, at)];
      Extend(history, RealPass(gateId, Some(key), at));
      history := history + [RealPass(gateId, Some(key), at)];
    }

    method ClearCache()
      requires Valid()
      modifies this
      ensures Valid() && history == old(history) + [Cleared] && index == map[]
    {
      index := map[];
      Extend(history, Cleared);
      history := history + [Cleared];
    }

    /** What the runner does before it runs a gate: report a stored pass under the gate's
        key, if there is one. A gate without a key is never looked up. */
    method Launch(gateId: string, key: Option<Key>) returns (cached: bool)
      requires Valid()
      modifies this
      ensures Valid() && index == old(index)
      ensures cached <==> key.Some? && key.value in index
      ensures history == old(history) + [if cached then CachedPass(gateId, key.value) else RealStart(gateId, key)]
    {
      cached := false;
      if key.Some? {
        var hit := LookupCache(key.value);
        OnlyPassesAreCached(history);
        cached := hit.Some? && hit.value.passed;
      }
      ghost var e := if cached then CachedPass(gateId, key.value) else RealStart(gateId, key);
      Extend(history, e);
      history := history + [e];
    }

    /** What the runner does when a gate it ran has finished: a pass is stored under the
        gate's key, a failure never is. */
    method Finish(gateId: string, key: Option<Key>, passed: bool, at: string)
      requires Valid()
      modifies this
      ensures Valid()
      ensures history == old(history) + [if passed then RealPass(gateId, key, at) else RealFail(gateId, key)]
    {
      if passed && key.Some? {
        StoreCache(key.value, gateId, at);
      } else {
        var e := if passed then RealPass(gateId, key, at) else RealFail(gateId, key);
        Extend(history, e);
        history := history + [e];
      }
    }
  }

  lemma Extend(history: seq<Event>, e: Event)
    requires IsHistory(history) && Possible(IndexAfter(history), e)
    ensures IsHistory(history + [e]) && IndexAfter(history + [e]) == Next(IndexAfter(history), e)
  {
    var longer := history + [e];
    assert longer[..|history|] == history;
    forall i | 0 <= i < |longer| ensures Possible(IndexAfter(longer[..i]), longer[i]) {
      if i < |history| {
        assert longer[..i] == history[..i];
      }
    }
  }
}
