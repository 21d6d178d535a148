/**
 * Concurrent callers of the cached gas price: a lock-free read, then a double-checked fetch under an
 * asynchronous lock. Forced refreshes write the cache at any time without the lock. Times are in
 * milliseconds. The priority-fee cache is a second instance of the same protocol.
 */
module GasCache {
  import opened Words

  const DEFAULT_GAS_CACHE_FALLBACK_MS: nat := 500

  datatype Config = Config(gasCacheDuration: Option<nat>, backgroundRefresh: Option<nat>, maxGasCacheAge: nat) {

    function EffectiveDuration(): nat {
      if gasCacheDuration.Some? then gasCacheDuration.value
      else if backgroundRefresh.Some? then backgroundRefresh.value
      else DEFAULT_GAS_CACHE_FALLBACK_MS
    }

    /** How long a cached price is served. */
    function Ttl(): nat {
      Min(EffectiveDuration(), maxGasCacheAge)
    }
  }

  type CallerId = nat

  datatype Entry = Entry(price: u256, at: nat)

  datatype Phase = Arrived | Waiting | Checking | Fetching | Fetched(price: u256) | Served(answer: u256) | Failed

  /** `writes` and `fetches` are the times of all cache writes and of those that followed a fetch. */
  datatype State = State(now: nat, cache: Option<Entry>, lock: Option<CallerId>, callers: map<CallerId, Phase>,
                         writes: set<nat>, fetches: seq<nat>)

  datatype Action =
    | Call(c: CallerId)
    | FastRead(c: CallerId)
    | Acquire(c: CallerId)
    | DoubleCheck(c: CallerId)
    | Respond(c: CallerId, price: Option<u256>)
    | Store(c: CallerId)
    | Refresh(refreshed: u256)
    | Tick(ms: nat)

  ghost function Init(now: nat): State {
    State(now, None, None, map[], {}, [])
  }

  /** The cached price, unless it is too old by either limit. */
  function ReadGasCache(config: Config, cache: Option<Entry>, now: nat): Option<u256> {
    if cache.Some? && cache.value.at <= now
       && now - cache.value.at < config.EffectiveDuration() && now - cache.value.at < config.maxGasCacheAge
    then Some(cache.value.price) else None
  }

  ghost predicate Is(s: State, c: CallerId, phase: Phase) {
    c in s.callers && s.callers[c] == phase
  }

  ghost predicate Enabled(s: State, a: Action) {
    match a
    case Call(c) => c !in s.callers
    case FastRead(c) => Is(s, c, Arrived)
    case Acquire(c) => Is(s, c, Waiting) && s.lock.None?
    case DoubleCheck(c) => Is(s, c, Checking)
    case Respond(c, _) => Is(s, c, Fetching)
    case Store(c) => c in s.callers && s.callers[c].Fetched?
    case Refresh(_) => true
    case Tick(_) => true
  }

  ghost function At(s: State, c: CallerId, phase: Phase): State {
    s.(callers := s.callers[c := phase])
  }

  ghost function Written(s: State, price: u256): State {
    s.(cache := Some(Entry(price, s.now)), writes := s.writes + {s.now})
  }

  ghost function Next(config: Config, s: State, a: Action): State
    requires Enabled(s, a)
  {
    match a
    case Call(c) => At(s, c, Arrived)
    case FastRead(c) =>
      var read := ReadGasCache(config, s.cache, s.now);
      At(s, c, if read.Some? then Served(read.value) else Waiting)
    case Acquire(c) => At(s.(lock := Some(c)), c, Checking)
    case DoubleCheck(c) =>
      var read := ReadGasCache(config, s.cache, s.now);
      if read.Some? then At(s.(lock := None), c, Served(read.value)) else At(s, c, Fetching)
    case Respond(c, price) =>
      if price.Some? then At(s, c, Fetched(price.value)) else At(s.(lock := None), c, Failed)
    case Store(c) =>
      var price := s.callers[c].price;
      At(Written(s, price).(lock := None, fetches := s.fetches + [s.now]), c, Served(price))
    case Refresh(price) => Written(s, price)
    case Tick(ms) => s.(now := s.now + ms)
  }

  ghost predicate IsRun(config: Config, s: State, actions: seq<Action>)
    decreases |actions|
  {
    actions == [] || (Enabled(s, actions[0]) && IsRun(config, Next(config, s, actions[0]), actions[1..]))
  }

  ghost function After(config: Config, s: State, actions: seq<Action>): State
    requires IsRun(config, s, actions)
    decreases |actions|
  {
    if actions == [] then s else After(config, Next(config, s, actions[0]), actions[1..])
  }

  // ---------- The invariant ----------

  predicate Locks(phase: Phase) {
    phase.Checking? || phase.Fetching? || phase.Fetched?
  }

  predicate InFlight(phase: Phase) {
    phase.Fetching? || phase.Fetched?
  }

  ghost predicate LockInv(s: State) {
    && (forall c | c in s.callers :: Locks(s.callers[c]) <==> s.lock == Some(c))
    && (s.lock.Some? ==> s.lock.value in s.callers)
  }

  /** The cache holds the latest write. */
  ghost predicate CacheInv(s: State) {
    && (s.cache.None? <==> s.writes == {})
    && (s.cache.Some? ==> s.cache.value.at in s.writes && s.cache.value.at <= s.now)
    && (forall w | w in s.writes :: s.cache.Some? && w <= s.cache.value.at)
  }

  /** Each fetch was stored at least a lifetime after the one before it, and so will be the next. */
  ghost predicate FetchInv(config: Config, s: State) {
    && (forall k | 0 <= k < |s.fetches| :: s.fetches[k] in s.writes)
    && (forall k | 0 < k < |s.fetches| :: s.fetches[k - 1] + config.Ttl() <= s.fetches[k])
    && (forall c | c in s.callers && InFlight(s.callers[c]) ::
          s.fetches != [] ==> s.fetches[|s.fetches| - 1] + config.Ttl() <= s.now)
  }

  ghost predicate Inv(config: Config, s: State) {
    LockInv(s) && CacheInv(s) && FetchInv(config, s)
  }

  lemma LockStep(config: Config, s: State, a: Action)
    requires LockInv(s) && Enabled(s, a)
    ensures LockInv(Next(config, s, a))
  {
  }

  lemma CacheStep(config: Config, s: State, a: Action)
    requires CacheInv(s) && Enabled(s, a)
    ensures CacheInv(Next(config, s, a))
  {
  }

  /** A read misses exactly when every write so far is at least a lifetime old. */
  lemma MissIff(config: Config, s: State)
    requires CacheInv(s)
    ensures ReadGasCache(config, s.cache, s.now).None? <==> forall w | w in s.writes :: w + config.Ttl() <= s.now
  {
    if s.cache.Some? {
      var at := s.cache.value.at;
      assert at in s.writes;
      assert ReadGasCache(config, s.cache, s.now).None? <==> at + config.Ttl() <= s.now;
    }
  }

  lemma DoubleCheckStep(config: Config, s: State, c: CallerId)
    requires Inv(config, s) && Enabled(s, DoubleCheck(c))
    ensures FetchInv(config, Next(config, s, DoubleCheck(c)))
  {
    MissIff(config, s);
    assert s.fetches != [] ==> s.fetches[|s.fetches| - 1] in s.writes;
  }

  lemma StoreStep(config: Config, s: State, c: CallerId)
    requires Inv(config, s) && Enabled(s, Store(c))
    ensures FetchInv(config, Next(config, s, Store(c)))
  {
    var s' := Next(config, s, Store(c));
    assert InFlight(s.callers[c]);
    forall d | d in s'.callers ensures !InFlight(s'.callers[d]) {
      assert d != c ==> s.lock != Some(d);
    }
  }

  lemma FetchStep(config: Config, s: State, a: Action)
    requires Inv(config, s) && Enabled(s, a)
    ensures FetchInv(config, Next(config, s, a))
  {
    if a.DoubleCheck? {
      DoubleCheckStep(config, s, a.c);
    } else if a.Store? {
      StoreStep(config, s, a.c);
    }
  }

  lemma {:induction false} RunKeepsInv(config: Config, s: State, actions: seq<Action>)
    requires Inv(config, s) && IsRun(config, s, actions)
    ensures Inv(config, After(config, s, actions))
    decreases |actions|
  {
    if actions != [] {
      LockStep(config, s, actions[0]);
      CacheStep(config, s, actions[0]);
      FetchStep(config, s, actions[0]);
      RunKeepsInv(config, Next(config, s, actions[0]), actions[1..]);
    }
  }

  // ---------- Whole runs ----------

  ghost predicate Reached(config: Config, now: nat, actions: seq<Action>, s: State) {
    IsRun(config, Init(now), actions) && s == After(config, Init(now), actions)
  }

  lemma ReachedInv(config: Config, now: nat, actions: seq<Action>, s: State)
    requires Reached(config, now, actions, s)
    ensures Inv(config, s)
  {
    RunKeepsInv(config, Init(now), actions);
  }

  /** At most one fetch is in flight, and its caller holds the lock. */
  lemma OneFetchAtATime(config: Config, now: nat, actions: seq<Action>, s: State, c: CallerId, d: CallerId)
    requires Reached(config, now, actions, s)
    requires c in s.callers && d in s.callers && InFlight(s.callers[c]) && InFlight(s.callers[d])
    ensures c == d && s.lock == Some(c)
  {
    ReachedInv(config, now, actions, s);
  }

  /** A fetch starts exactly when no write of the cache is younger than its lifetime. */
  lemma FetchStartsIff(config: Config, now: nat, actions: seq<Action>, s: State, c: CallerId)
    requires Reached(config, now, actions, s) && Enabled(s, DoubleCheck(c))
    ensures Next(config, s, DoubleCheck(c)).callers[c] == Fetching <==> forall w | w in s.writes :: w + config.Ttl() <= s.now
  {
    ReachedInv(config, now, actions, s);
    MissIff(config, s);
  }

  /** A price served from the cache is the latest one written, and younger than its lifetime. */
  lemma ServedIsFresh(config: Config, now: nat, actions: seq<Action>, s: State, a: Action)
    requires Reached(config, now, actions, s) && Enabled(s, a) && (a.FastRead? || a.DoubleCheck?)
    requires Next(config, s, a).callers[a.c].Served?
    ensures s.cache.Some? && s.cache.value.price == Next(config, s, a).callers[a.c].answer
    ensures s.cache.value.at <= s.now < s.cache.value.at + config.Ttl()
    ensures s.cache.value.at in s.writes && forall w | w in s.writes :: w <= s.cache.value.at
  {
    ReachedInv(config, now, actions, s);
  }

  /** The lifetime: the duration set, else the refresh interval, else half a second, and never past the age limit. */
  lemma LifetimeIs(config: Config)
    ensures config.gasCacheDuration.Some? ==> config.Ttl() == Min(config.gasCacheDuration.value, config.maxGasCacheAge)
    ensures config.gasCacheDuration.None? && config.backgroundRefresh.Some? ==>
              config.Ttl() == Min(config.backgroundRefresh.value, config.maxGasCacheAge)
    ensures config.gasCacheDuration.None? && config.backgroundRefresh.None? ==>
              config.Ttl() == Min(500, config.maxGasCacheAge)
  {
  }

  /** Once a fetch has brought a price, its caller can only be on the way to being served that price. */
  lemma {:induction false} FetchedIsServed(config: Config, s: State, actions: seq<Action>, c: CallerId, price: u256)
    requires IsRun(config, s, actions) && (Is(s, c, Fetched(price)) || Is(s, c, Served(price)))
    ensures Is(After(config, s, actions), c, Fetched(price)) || Is(After(config, s, actions), c, Served(price))
    decreases |actions|
  {
    if actions != [] {
      FetchedIsServed(config, Next(config, s, actions[0]), actions[1..], c, price);
    }
  }

  /**
   * How a fetch ends: a failure frees the lock and leaves the cache alone, and a price is served,
   * cached as of now and the lock freed, so that every read until it is a lifetime old yields it.
   */
  lemma FetchEnds(config: Config, now: nat, actions: seq<Action>, s: State, c: CallerId, price: u256, ms: nat)
    requires Reached(config, now, actions, s)
    ensures Is(s, c, Fetching) ==>
              var s' := Next(config, s, Respond(c, None));
              Is(s', c, Failed) && s'.lock.None? && s'.cache == s.cache
    ensures Is(s, c, Fetching) ==>
              var s' := Next(config, s, Respond(c, Some(price)));
              Is(s', c, Fetched(price)) && s'.lock == Some(c) && s'.cache == s.cache
    ensures Is(s, c, Fetched(price)) ==>
              var s' := Next(config, s, Store(c));
              && Is(s', c, Served(price)) && s'.lock.None?
              && (ms < config.Ttl() ==> ReadGasCache(config, s'.cache, s.now + ms) == Some(price))
              && (ms >= config.Ttl() ==> ReadGasCache(config, s'.cache, s.now + ms).None?)
  {
    ReachedInv(config, now, actions, s);
  }

  lemma {:induction false} SpacingAddsUp(times: seq<nat>, ttl: nat)
    requires times != [] && forall k | 0 < k < |times| :: times[k - 1] + ttl <= times[k]
    ensures times[0] + (|times| - 1) * ttl <= times[|times| - 1]
    decreases |times|
  {
    if |times| > 1 {
      var front := times[..|times| - 1];
      SpacingAddsUp(front, ttl);
      assert (|times| - 1) * ttl == (|front| - 1) * ttl + ttl;
    }
  }

  /** k successful fetches take at least k - 1 lifetimes, however many callers there are. */
  lemma FetchesAreSpaced(config: Config, now: nat, actions: seq<Action>, s: State)
    requires Reached(config, now, actions, s) && s.fetches != []
    ensures s.fetches[0] + (|s.fetches| - 1) * config.Ttl() <= s.fetches[|s.fetches| - 1] <= s.now
  {
    ReachedInv(config, now, actions, s);
    SpacingAddsUp(s.fetches, config.Ttl());
    assert s.fetches[|s.fetches| - 1] in s.writes;
  }

  /** Whoever holds the lock can always go on, so no caller waits behind a caller that cannot move. */
  lemma HolderCanMove(config: Config, now: nat, actions: seq<Action>, s: State) returns (a: Action)
    requires Reached(config, now, actions, s) && s.lock.Some?
    ensures Enabled(s, a) && (a.DoubleCheck? || a.Respond? || a.Store?) && a.c == s.lock.value
  {
    ReachedInv(config, now, actions, s);
    var c := s.lock.value;
    a := if s.callers[c].Checking? then DoubleCheck(c) else if s.callers[c].Fetching? then Respond(c, None) else Store(c);
  }
}
