/** That a chain sync takes effect, whatever runs beside it. */
module InterleavingSyncs {
  import opened Words
  import opened Interleaving
  import opened InterleavingSafety
  import opened InterleavingRuns

  /** No step of the run is the compare-and-swap with which a rewind succeeds. */
  ghost predicate NoRewindLands(s: State, actions: seq<Action>)
    requires IsRun(s, actions)
    decreases |actions|
  {
    actions == [] ||
    (!(actions[0].Advance? && RewindLands(s.mem, s.tasks[actions[0].t]))
     && NoRewindLands(Step(s, actions[0]), actions[1..]))
  }

  /** Between the compare-and-swap of a successful rewind and the store of its floor. */
  predicate MidRewind(pc: Pc) {
    pc.Rewinding? && (pc.rewindAt.Clear? || pc.rewindAt.Count? || pc.rewindAt.Floor?)
  }

  ghost predicate NoneMidRewind(s: State) {
    forall t | t in s.tasks :: !MidRewind(s.tasks[t])
  }

  /** The sync has stored its floor. */
  predicate PassedFloor(pc: Pc) {
    pc.SyncDone? || (pc.Syncing? && (pc.syncAt.Load? || pc.syncAt.Cas? || pc.syncAt.Unlock?))
  }

  // ---------- Floor and counter, one step at a time ----------

  lemma MoveStartsNoRewind(m: Memory, pc: Pc, t: TaskId)
    requires !Resting(pc) && !MidRewind(pc) && !RewindLands(m, pc)
    ensures !MidRewind(AdvanceMove(m, pc, t).pc)
  {
  }

  lemma StepStartsNoRewind(s: State, a: Action)
    requires Enabled(s, a) && NoneMidRewind(s)
    requires !(a.Advance? && RewindLands(s.mem, s.tasks[a.t]))
    ensures NoneMidRewind(Step(s, a))
  {
    if a.Advance? {
      MoveStartsNoRewind(s.mem, s.tasks[a.t], a.t);
    }
  }

  /** Without a rewind the floor moves in one way only. */
  lemma MoveFloor(m: Memory, pc: Pc, t: TaskId)
    requires !Resting(pc) && !MidRewind(pc)
    ensures AdvanceMove(m, pc, t).mem.synced ==
            if pc.Syncing? && pc.syncAt.Floor? then Max(m.synced, pc.chain) else m.synced
  {
  }

  lemma StepFloor(s: State, a: Action)
    requires Enabled(s, a) && NoneMidRewind(s)
    ensures Step(s, a).mem.synced ==
            if a.Advance? && s.tasks[a.t].Syncing? && s.tasks[a.t].syncAt.Floor?
            then Max(s.mem.synced, s.tasks[a.t].chain) else s.mem.synced
  {
    if a.Advance? {
      MoveFloor(s.mem, s.tasks[a.t], a.t);
    } else {
      LightMove(s, a);
    }
  }

  /** Without a rewind or a wrap the counter drops no further than to the floor. */
  lemma MoveCounter(m: Memory, pc: Pc, t: TaskId)
    requires !Resting(pc) && !RewindLands(m, pc) && !(pc.ReserveFetch? && m.current == U64_MAX)
    requires Locked(pc) ==> PhaseInv(m, pc)
    ensures AdvanceMove(m, pc, t).mem.current >= Min(m.current, m.synced)
  {
  }

  lemma StepCounter(s: State, a: Action)
    requires Enabled(s, a) && MemoryInv(s) && !Step(s, a).mem.exhausted
    requires !(a.Advance? && RewindLands(s.mem, s.tasks[a.t]))
    ensures Step(s, a).mem.current >= Min(s.mem.current, s.mem.synced)
  {
    StepHistory(s, a);
    if a.Advance? {
      if Locked(s.tasks[a.t]) {
        assert HolderPc(s) == s.tasks[a.t];
      }
      MoveCounter(s.mem, s.tasks[a.t], a.t);
    } else {
      LightMove(s, a);
    }
  }

  // ---------- A sync takes effect ----------

  /** How far a sync to `chain` has come, and what holds from there on. */
  ghost predicate SyncStands(s: State, t: TaskId, chain: u64) {
    && t in s.tasks
    && var pc := s.tasks[t];
       || pc == SyncLock(chain)
       || (&& ((pc.Syncing? && pc.chain == chain) || pc.SyncDone?)
           && NoneMidRewind(s)
           && (PassedFloor(pc) ==> chain <= s.mem.synced)
           && (pc.SyncDone? || pc.syncAt.Unlock? ==> chain <= s.mem.current))
  }

  lemma OwnSyncMove(m: Memory, pc: Pc, chain: u64, t: TaskId)
    requires pc == SyncLock(chain) || (pc.Syncing? && pc.chain == chain)
    requires PassedFloor(pc) ==> chain <= m.synced
    requires pc.Syncing? && pc.syncAt.Unlock? ==> chain <= m.current
    ensures var r := AdvanceMove(m, pc, t);
            && ((r.pc.Syncing? && r.pc.chain == chain) || r.pc.SyncDone?)
            && (PassedFloor(r.pc) ==> chain <= r.mem.synced)
            && (r.pc.SyncDone? || r.pc.syncAt.Unlock? ==> chain <= r.mem.current)
  {
  }

  lemma SyncKeepsStanding(s: State, a: Action, t: TaskId, chain: u64)
    requires Inv(s) && Enabled(s, a) && !Step(s, a).mem.exhausted && SyncStands(s, t, chain)
    requires !(a.Advance? && RewindLands(s.mem, s.tasks[a.t]))
    ensures SyncStands(Step(s, a), t, chain)
  {
    StepHistory(s, a);
    if a.t == t {
      if s.tasks[t].SyncLock? {
        assert NoneMidRewind(s);
      }
      StepStartsNoRewind(s, a);
      OwnSyncMove(s.mem, s.tasks[t], chain, t);
    } else if !s.tasks[t].SyncLock? {
      StepStartsNoRewind(s, a);
      StepFloor(s, a);
      StepCounter(s, a);
    }
  }

  lemma {:induction false} SyncStandsAfter(s: State, actions: seq<Action>, t: TaskId, chain: u64)
    requires Inv(s) && IsRun(s, actions) && NoRewindLands(s, actions) && !After(s, actions).mem.exhausted
    requires SyncStands(s, t, chain)
    ensures SyncStands(After(s, actions), t, chain) && Inv(After(s, actions))
    decreases |actions|
  {
    if actions != [] {
      var s' := Step(s, actions[0]);
      if s'.mem.exhausted {
        WrapIsForever(s', actions[1..]);
        assert false;
      }
      StepKeepsInv(s, actions[0]);
      SyncKeepsStanding(s, actions[0], t, chain);
      SyncStandsAfter(s', actions[1..], t, chain);
    }
  }

  lemma {:induction false} WrapIsForever(s: State, actions: seq<Action>)
    requires IsRun(s, actions) && s.mem.exhausted
    ensures After(s, actions).mem.exhausted
    decreases |actions|
  {
    if actions != [] {
      StepHistory(s, actions[0]);
      WrapIsForever(Step(s, actions[0]), actions[1..]);
    }
  }

  /**
   * A sync that has returned holds for good: from then on, until a rewind succeeds or the counter
   * wraps, floor and counter are at or above the chain's nonce and nothing below it is handed out.
   */
  lemma SyncTakesEffect(s: State, actions: seq<Action>, t: TaskId, chain: u64)
    requires Reachable(s) && t in s.tasks && s.tasks[t] == SyncLock(chain)
    requires IsRun(s, actions) && NoRewindLands(s, actions) && !After(s, actions).mem.exhausted
    requires t in After(s, actions).tasks && After(s, actions).tasks[t] == SyncDone
    ensures chain <= After(s, actions).mem.synced && chain <= After(s, actions).mem.current
    ensures forall a | Enabled(After(s, actions), a) && Issued(After(s, actions), a).Some? ::
              chain <= Issued(After(s, actions), a).value
  {
    var later := After(s, actions);
    ReachableInv(s);
    SyncStandsAfter(s, actions, t, chain);
    forall a | Enabled(later, a) && Issued(later, a).Some? ensures chain <= Issued(later, a).value {
      IssuedBySomeone(later, a);
      if !later.tasks[a.t].ReserveFetch? {
        assert HolderPc(later) == later.tasks[a.t];
      }
    }
  }

  // ---------- The floor over a whole run ----------

  /** The task of a sync to `chain`. */
  predicate SyncsTo(pc: Pc, chain: u64) {
    pc == SyncLock(chain) || (pc.Syncing? && pc.chain == chain) || pc.SyncDone?
  }

  /** The floor after `past`: the largest of the initial nonce and the chains of the syncs that stored theirs. */
  ghost predicate FloorIs(s: State, initialNonce: nat, past: seq<Action>) {
    && initialNonce <= s.mem.synced
    && (forall t, chain: u64 | SpawnSync(t, chain) in past :: t in s.tasks && SyncsTo(s.tasks[t], chain))
    && (forall t, chain: u64 | SpawnSync(t, chain) in past && PassedFloor(s.tasks[t]) :: chain <= s.mem.synced)
    && (s.mem.synced == initialNonce ||
        exists t, chain: u64 :: SpawnSync(t, chain) in past && PassedFloor(s.tasks[t]) && chain == s.mem.synced)
  }

  /** Every sync under way was started. */
  ghost predicate SyncsStarted(s: State, past: seq<Action>) {
    forall t | t in s.tasks && (s.tasks[t].SyncLock? || s.tasks[t].Syncing?) :: SpawnSync(t, s.tasks[t].chain) in past
  }

  lemma MoveOfSync(m: Memory, pc: Pc, t: TaskId)
    requires !Resting(pc)
    ensures var r := AdvanceMove(m, pc, t);
            && (forall chain: u64 :: SyncsTo(pc, chain) ==> SyncsTo(r.pc, chain))
            && (r.pc.Syncing? ==> (pc.SyncLock? || pc.Syncing?) && pc.chain == r.pc.chain)
            && !r.pc.SyncLock?
            && (PassedFloor(r.pc) <==> PassedFloor(pc) || (pc.Syncing? && pc.syncAt.Floor?))
  {
  }

  lemma StepFollowsSyncs(s: State, a: Action, past: seq<Action>)
    requires Enabled(s, a) && SyncsStarted(s, past)
    ensures SyncsStarted(Step(s, a), past + [a])
  {
    if a.Advance? {
      MoveOfSync(s.mem, s.tasks[a.t], a.t);
    }
  }

  lemma StepKeepsFloor(s: State, a: Action, initialNonce: nat, past: seq<Action>)
    requires Enabled(s, a) && NoneMidRewind(s) && SyncsStarted(s, past) && FloorIs(s, initialNonce, past)
    ensures FloorIs(Step(s, a), initialNonce, past + [a])
  {
    var s' := Step(s, a);
    StepFloor(s, a);
    if a.Advance? {
      MoveOfSync(s.mem, s.tasks[a.t], a.t);
    }
    forall t, chain: u64 | SpawnSync(t, chain) in past + [a]
      ensures t in s'.tasks && SyncsTo(s'.tasks[t], chain) && (PassedFloor(s'.tasks[t]) ==> chain <= s'.mem.synced)
    {
      assert SpawnSync(t, chain) in past || SpawnSync(t, chain) == a;
    }
    if s'.mem.synced == s.mem.synced {
      if s.mem.synced != initialNonce {
        var t, chain: u64 :| SpawnSync(t, chain) in past && PassedFloor(s.tasks[t]) && chain == s.mem.synced;
        assert SpawnSync(t, chain) in past + [a] && PassedFloor(s'.tasks[t]);
      }
    } else {
      assert SpawnSync(a.t, s.tasks[a.t].chain) in past + [a] && PassedFloor(s'.tasks[a.t]);
    }
  }

  lemma {:induction false} RunKeepsFloor(s: State, actions: seq<Action>, initialNonce: nat, past: seq<Action>)
    requires IsRun(s, actions) && NoRewindLands(s, actions)
    requires NoneMidRewind(s) && SyncsStarted(s, past) && FloorIs(s, initialNonce, past)
    ensures FloorIs(After(s, actions), initialNonce, past + actions)
    decreases |actions|
  {
    if actions == [] {
      assert past + [] == past;
    } else {
      var a := actions[0];
      StepStartsNoRewind(s, a);
      StepFollowsSyncs(s, a, past);
      StepKeepsFloor(s, a, initialNonce, past);
      RunKeepsFloor(Step(s, a), actions[1..], initialNonce, past + [a]);
      assert past + [a] + actions[1..] == past + actions;
    }
  }

  /**
   * Without a rewind the floor is the largest of the initial nonce and the nonces of exactly those
   * syncs that have stored theirs, among them every sync that has returned.
   */
  lemma FloorIsLargestSync(initialNonce: u64, actions: seq<Action>)
    requires IsRun(Init(initialNonce), actions) && NoRewindLands(Init(initialNonce), actions)
    ensures var s := After(Init(initialNonce), actions);
            && initialNonce <= s.mem.synced
            && (forall t, chain: u64 | SpawnSync(t, chain) in actions ::
                  t in s.tasks && (PassedFloor(s.tasks[t]) ==> chain <= s.mem.synced))
            && (s.mem.synced == initialNonce ||
                exists t, chain: u64 :: SpawnSync(t, chain) in actions && t in s.tasks && PassedFloor(s.tasks[t])
                                        && chain == s.mem.synced)
  {
    var s0 := Init(initialNonce);
    RunKeepsFloor(s0, actions, initialNonce, []);
    assert [] + actions == actions;
    var s := After(s0, actions);
    if s.mem.synced != initialNonce {
      var t, chain: u64 :| SpawnSync(t, chain) in actions && PassedFloor(s.tasks[t]) && chain == s.mem.synced;
      assert SpawnSync(t, chain) in actions && t in s.tasks;
    }
  }
}
