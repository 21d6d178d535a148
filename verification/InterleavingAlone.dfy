/** Operations of the nonce tracker that run without interruption, between any others. */
module InterleavingAlone {
  import opened Words
  import opened Interleaving
  import opened InterleavingSafety
  import opened InterleavingRuns
  import Nonce

  lemma Then(s: State, a: Action) returns (s': State)
    requires Reachable(s) && Enabled(s, a)
    ensures Reachable(s') && s' == Step(s, a)
  {
    var initialNonce: u64, past: seq<Action> :|
      IsRun(Init(initialNonce), past) && s == After(Init(initialNonce), past);
    AppendAction(Init(initialNonce), past, a);
    s' := Step(s, a);
  }

  /** Task `t` is at `pc`, nobody else holds the lock, and the other tasks are as in `rest`. */
  ghost function At(rest: map<TaskId, Pc>, t: TaskId, pc: Pc, mem: Memory): State {
    State(mem, if Locked(pc) then Some(t) else None, rest[t := pc])
  }

  /** Task `t` alone makes the accesses that lead from each point of `path` to the next. */
  ghost predicate Solo(t: TaskId, path: seq<Move>) {
    forall i | 0 <= i < |path| - 1 :: Follows(t, path[i], path[i + 1])
  }

  ghost predicate Follows(t: TaskId, a: Move, b: Move) {
    !Resting(a.pc) && !RewindLands(a.mem, a.pc) && AdvanceMove(a.mem, a.pc, t) == b
  }

  lemma {:induction false} SoloRun(rest: map<TaskId, Pc>, t: TaskId, path: seq<Move>)
    requires path != [] && Solo(t, path) && Reachable(At(rest, t, path[0].pc, path[0].mem))
    ensures var last := path[|path| - 1]; Reachable(At(rest, t, last.pc, last.mem))
    decreases |path|
  {
    if |path| > 1 {
      assert Follows(t, path[0], path[1]);
      var s := At(rest, t, path[0].pc, path[0].mem);
      var s' := Then(s, Advance(t));
      assert s'.tasks == rest[t := path[1].pc];
      assert s' == At(rest, t, path[1].pc, path[1].mem);
      forall i | 0 <= i < |path[1..]| - 1 ensures Follows(t, path[1..][i], path[1..][i + 1]) {
        assert Follows(t, path[i + 1], path[i + 2]);
      }
      SoloRun(rest, t, path[1..]);
    }
  }

  lemma Start(initialNonce: u64) returns (s: State)
    ensures Reachable(s) && s == Init(initialNonce)
  {
    s := Init(initialNonce);
    assert IsRun(Init(initialNonce), []) && After(Init(initialNonce), []) == s;
  }

  /** The abstract allocator a state stores while the lock is free. */
  ghost function Alloc(s: State): Nonce.Allocator {
    Nonce.Allocator(s.mem.synced, s.mem.owner.Keys)
  }

  // ---------- Reserve ----------

  /** A task that has seen no gaps and is about to fetch from the counter. */
  lemma ReserveChecked(s: State, t: TaskId) returns (s': State)
    requires Reachable(s) && s.lock.None? && t !in s.tasks && s.mem.gapCount == 0
    ensures Reachable(s') && s' == At(s.tasks, t, ReserveFetch, s.mem.(pending := s.mem.pending + 1))
  {
    var s1 := Then(s, SpawnReserve(t));
    assert s1 == At(s.tasks, t, ReserveStart, s.mem);
    var counted := s.mem.(pending := s.mem.pending + 1);
    SoloRun(s.tasks, t, [Move(ReserveStart, s.mem), Move(ReserveCheck, counted), Move(ReserveFetch, counted)]);
    s' := At(s.tasks, t, ReserveFetch, counted);
  }

  /** A task that reserves from an idle tracker with no gaps. */
  lemma ReserveAlone(s: State, t: TaskId) returns (s': State)
    requires Reachable(s) && s.lock.None? && t !in s.tasks && s.mem.gapCount == 0
    ensures Reachable(s')
    ensures s' == At(s.tasks, t, Held(s.mem.current),
                     s.mem.(current := WrapInc(s.mem.current), pending := s.mem.pending + 1,
                            owner := s.mem.owner[s.mem.current := t],
                            exhausted := s.mem.exhausted || s.mem.current == U64_MAX))
  {
    var s1 := ReserveChecked(s, t);
    var m := s1.mem;
    var m' := m.(current := WrapInc(m.current), owner := m.owner[m.current := t],
                 exhausted := m.exhausted || m.current == U64_MAX);
    SoloRun(s.tasks, t, [Move(ReserveFetch, m), Move(Held(m.current), m')]);
    s' := At(s.tasks, t, Held(m.current), m');
  }

  /** A task that reserves from an idle tracker with gaps. */
  lemma ReserveGapAlone(s: State, t: TaskId) returns (s': State)
    requires Reachable(s) && s.lock.None? && t !in s.tasks && s.mem.gapCount > 0 && s.mem.gaps != {}
    ensures Reachable(s')
    ensures var n := Least(s.mem.gaps);
            s' == At(s.tasks, t, Held(n),
                     s.mem.(pending := s.mem.pending + 1, gaps := s.mem.gaps - {n}, owner := s.mem.owner[n := t],
                            gapCount := WrapDec(s.mem.gapCount)))
  {
    var s1 := Then(s, SpawnReserve(t));
    assert s1 == At(s.tasks, t, ReserveStart, s.mem);
    PopPath(t, s.mem);
    SoloRun(s.tasks, t, PopSteps(t, s.mem));
    s' := At(s.tasks, t, PopSteps(t, s.mem)[6].pc, PopSteps(t, s.mem)[6].mem);
  }

  ghost function PopSteps(t: TaskId, m: Memory): seq<Move>
    requires m.gaps != {}
  {
    var counted := m.(pending := m.pending + 1);
    var n := Least(m.gaps);
    var taken := counted.(gaps := m.gaps - {n}, owner := m.owner[n := t]);
    var uncounted := taken.(gapCount := WrapDec(m.gapCount));
    [Move(ReserveStart, m),
     Move(ReserveCheck, counted),
     Move(ReserveLock, counted),
     Move(Reserving(First), counted),
     Move(Reserving(ReserveAt.Count(n)), taken),
     Move(Reserving(ReserveAt.Unlock(n)), uncounted),
     Move(Held(n), uncounted)]
  }

  lemma PopPath(t: TaskId, m: Memory)
    requires m.gaps != {} && m.gapCount > 0
    ensures Solo(t, PopSteps(t, m))
  {
  }

  /** Run alone between any other operations, a reservation hands out the least free nonce. */
  lemma ReserveTakesLeastFree(s: State, t: TaskId) returns (s': State, n: nat)
    requires Reachable(s) && s.lock.None? && !s.mem.exhausted && t !in s.tasks
    ensures Reachable(s') && s'.lock.None? && s'.tasks == s.tasks[t := Held(n)]
    ensures s.mem.synced <= n && n !in s.mem.owner && forall m | s.mem.synced <= m < n :: m in s.mem.owner
    ensures s'.mem.owner == s.mem.owner[n := t] && s'.mem.synced == s.mem.synced
    ensures s'.mem.pending == s.mem.pending + 1
  {
    FreeLockIsCanonical(s);
    n := if s.mem.gaps == {} then s.mem.current else Least(s.mem.gaps);
    Nonce.StoredNextIsLeastFree(Alloc(s), s.mem.current, s.mem.gaps, s.mem.gapCount, n);
    if s.mem.gaps == {} {
      s' := ReserveAlone(s, t);
    } else {
      s' := ReserveGapAlone(s, t);
    }
  }

  // ---------- Release ----------

  /** A release of a nonce below the top, run without interruption. */
  lemma ReleaseIntoGap(s: State, t: TaskId) returns (s': State)
    requires Reachable(s) && s.lock.None? && t in s.tasks && s.tasks[t].Held?
    requires var n := s.tasks[t].n; s.mem.synced <= n && n + 1 < s.mem.current && n !in s.mem.gaps
    ensures Reachable(s')
    ensures var n, m := s.tasks[t].n, s.mem;
            s' == At(s.tasks, t, Released(n),
                     m.(gaps := m.gaps + {n}, owner := m.owner - {n}, gapCount := WrapInc(m.gapCount),
                        pending := Decrement(m.pending)))
  {
    var n := s.tasks[t].n;
    var s1 := Then(s, Release(t));
    var m := s1.mem;
    var freed := m.(gaps := m.gaps + {n}, owner := m.owner - {n});
    var counted := freed.(gapCount := WrapInc(m.gapCount));
    assert s1 == At(s.tasks, t, RecycleLock(n), m);
    ReleasePath(t, n, m, freed, counted);
    SoloRun(s.tasks, t, ReleaseSteps(n, m, freed, counted));
    s' := At(s.tasks, t, Released(n), counted);
  }

  ghost function ReleaseSteps(n: nat, m: Memory, freed: Memory, counted: Memory): seq<Move> {
    [Move(RecycleLock(n), m),
     Move(Recycling(n, RecycleAt.Floor), m),
     Move(Recycling(n, RecycleAt.Cas), m),
     Move(Recycling(n, RecycleAt.Top), m),
     Move(Recycling(n, Insert(m.current)), m),
     Move(Recycling(n, RecycleAt.Count), freed),
     Move(Recycling(n, RecycleAt.Unlock), counted),
     Move(Released(n), counted)]
  }

  lemma ReleasePath(t: TaskId, n: nat, m: Memory, freed: Memory, counted: Memory)
    requires m.synced <= n && n + 1 < m.current && n !in m.gaps
    requires freed == m.(gaps := m.gaps + {n}, owner := m.owner - {n})
    requires counted == freed.(gapCount := WrapInc(m.gapCount))
    ensures Solo(t, ReleaseSteps(n, m, freed, counted))
  {
  }

  // ---------- Sync ----------

  /** A sync: gaps below the chain's nonce go, and floor and counter are raised to it. */
  lemma SyncAlone(s: State, t: TaskId, chain: u64) returns (s': State)
    requires Reachable(s) && s.lock.None? && t !in s.tasks
    ensures Reachable(s')
    ensures s' == At(s.tasks, t, SyncDone, Synced(s.mem, chain))
    ensures s'.mem.owner == s.mem.owner
    ensures s'.mem.synced == Max(s.mem.synced, chain) && s'.mem.current == Max(s.mem.current, chain)
  {
    var s1 := Then(s, SpawnSync(t, chain));
    assert s1 == At(s.tasks, t, SyncLock(chain), s.mem);
    if chain <= s.mem.current {
      SyncPath(t, s.mem, chain);
      SoloRun(s.tasks, t, SyncSteps(s.mem, chain));
    } else {
      SyncPastPath(t, s.mem, chain);
      SoloRun(s.tasks, t, SyncPastSteps(s.mem, chain));
    }
    s' := At(s.tasks, t, SyncDone, Synced(s.mem, chain));
  }

  ghost function Synced(m: Memory, chain: u64): Memory {
    var kept := set n | n in m.gaps && chain <= n;
    m.(current := Max(m.current, chain), gaps := kept, gapCount := |kept| % U64_LIMIT, synced := Max(m.synced, chain))
  }

  ghost function SyncSteps(m: Memory, chain: u64): seq<Move> {
    var pruned := m.(gaps := set n | n in m.gaps && chain <= n);
    var counted := pruned.(gapCount := |pruned.gaps| % U64_LIMIT);
    var raised := counted.(synced := Max(m.synced, chain));
    [Move(SyncLock(chain), m),
     Move(Syncing(chain, Retain), m),
     Move(Syncing(chain, SyncAt.Count), pruned),
     Move(Syncing(chain, SyncAt.Floor), counted),
     Move(Syncing(chain, SyncAt.Load), raised),
     Move(Syncing(chain, SyncAt.Unlock), raised),
     Move(SyncDone, raised)]
  }

  lemma SyncPath(t: TaskId, m: Memory, chain: u64)
    requires chain <= m.current
    ensures Solo(t, SyncSteps(m, chain))
  {
  }

  ghost function SyncPastSteps(m: Memory, chain: u64): seq<Move> {
    var raised := SyncSteps(m, chain)[4].mem;
    SyncSteps(m, chain)[..5] +
    [Move(Syncing(chain, SyncAt.Cas(m.current)), raised),
     Move(Syncing(chain, SyncAt.Unlock), raised.(current := chain)),
     Move(SyncDone, raised.(current := chain))]
  }

  lemma SyncPastPath(t: TaskId, m: Memory, chain: u64)
    requires m.current < chain
    ensures Solo(t, SyncPastSteps(m, chain))
  {
  }

  // ---------- Rewind ----------

  /** A forced rewind: it changes nothing unless the chain is behind, and then starts over at its nonce. */
  lemma RewindAlone(s: State, t: TaskId, chain: u64) returns (s': State)
    requires Reachable(s) && s.lock.None? && t !in s.tasks && RewindJustified(s, chain)
    ensures Reachable(s')
    ensures chain < s.mem.current ==> s' == At(s.tasks, t, RewindDone, Rewound(s.mem, chain))
    ensures s.mem.current <= chain ==> s' == At(s.tasks, t, RewindDone, s.mem)
  {
    var m := s.mem;
    var s1 := Then(s, SpawnRewind(t, chain));
    assert s1 == At(s.tasks, t, RewindLock(chain), m);
    if m.current <= chain {
      SoloRun(s.tasks, t, [Move(RewindLock(chain), m), Move(Rewinding(chain, RewindAt.Load), m),
                           Move(Rewinding(chain, RewindAt.Unlock), m), Move(RewindDone, m)]);
      s' := At(s.tasks, t, RewindDone, m);
    } else {
      var s2 := RewindArrives(s, t, chain);
      RewindFinishes(s, t, chain);
      s' := At(s.tasks, t, RewindDone, Rewound(m, chain));
    }
  }

  lemma RewindFinishes(s: State, t: TaskId, chain: u64)
    requires var s2 := At(s.tasks, t, Rewinding(chain, RewindAt.Cas(s.mem.current)), s.mem);
             Reachable(s2) && Enabled(s2, Advance(t))
    ensures Reachable(At(s.tasks, t, RewindDone, Rewound(s.mem, chain)))
  {
    var m := s.mem;
    var s3 := Then(At(s.tasks, t, Rewinding(chain, RewindAt.Cas(m.current)), m), Advance(t));
    assert s3.tasks == s.tasks[t := Rewinding(chain, Clear)];
    assert s3 == At(s.tasks, t, Rewinding(chain, Clear), RewindSteps(m, chain)[0].mem);
    RewindPath(t, m, chain);
    SoloRun(s.tasks, t, RewindSteps(m, chain));
  }

  lemma RewindArrives(s: State, t: TaskId, chain: u64) returns (s': State)
    requires Reachable(s) && s.lock.None? && t !in s.tasks && RewindJustified(s, chain) && chain < s.mem.current
    requires Reachable(At(s.tasks, t, RewindLock(chain), s.mem))
    ensures s' == At(s.tasks, t, Rewinding(chain, RewindAt.Cas(s.mem.current)), s.mem)
    ensures Reachable(s') && Enabled(s', Advance(t))
  {
    var m := s.mem;
    SoloRun(s.tasks, t, [Move(RewindLock(chain), m), Move(Rewinding(chain, RewindAt.Load), m),
                         Move(Rewinding(chain, RewindAt.Cas(m.current)), m)]);
    s' := At(s.tasks, t, Rewinding(chain, RewindAt.Cas(m.current)), m);
    assert forall n | n in s.mem.owner && chain <= n :: s.mem.owner[n] != t;
    assert RewindJustified(s', chain);
  }

  ghost function Rewound(m: Memory, chain: u64): Memory {
    m.(current := chain, owner := map n | n in m.owner && n < chain :: m.owner[n], gaps := {}, gapCount := 0,
       synced := chain, rewound := true)
  }

  ghost function RewindSteps(m: Memory, chain: u64): seq<Move> {
    var back := m.(current := chain, owner := map n | n in m.owner && n < chain :: m.owner[n], rewound := true);
    var cleared := back.(gaps := {});
    var counted := cleared.(gapCount := 0);
    [Move(Rewinding(chain, Clear), back),
     Move(Rewinding(chain, RewindAt.Count), cleared),
     Move(Rewinding(chain, RewindAt.Floor), counted),
     Move(Rewinding(chain, RewindAt.Unlock), counted.(synced := chain)),
     Move(RewindDone, counted.(synced := chain))]
  }

  lemma RewindPath(t: TaskId, m: Memory, chain: u64)
    ensures Solo(t, RewindSteps(m, chain))
  {
  }

  /** After a rewind to a chain that is behind, the chain's nonce is the next one handed out. */
  lemma RewoundNonceIsNext(s: State, t: TaskId, u: TaskId, chain: u64) returns (s': State)
    requires Reachable(s) && s.lock.None? && !s.mem.exhausted && RewindJustified(s, chain) && chain < s.mem.current
    requires t !in s.tasks && u !in s.tasks && t != u
    ensures Reachable(s') && s'.tasks == s.tasks[t := RewindDone][u := Held(chain)]
    ensures s'.mem.synced == chain
    ensures forall n :: n in s'.mem.owner <==> n == chain || (n in s.mem.owner && n < chain)
  {
    var s1 := RewindAlone(s, t, chain);
    assert chain !in s1.mem.owner;
    var n;
    s', n := ReserveTakesLeastFree(s1, u);
    assert s1.mem.synced == chain;
    assert chain < n ==> chain in s1.mem.owner;
  }
}
