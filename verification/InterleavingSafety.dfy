/** What every interleaving of the tracker's atomic steps keeps. */
module InterleavingSafety {
  import opened Words
  import opened Interleaving

  // ---------- The invariant ----------

  /** Exactly the lock holder is at a locked program counter. */
  ghost predicate LockInv(s: State) {
    && (s.lock.Some? ==> s.lock.value in s.tasks)
    && forall t | t in s.tasks :: Locked(s.tasks[t]) <==> s.lock == Some(t)
  }

  /** `pending_count` counts reservations under way, live guards, and guards dropped while broadcasting. */
  ghost predicate PendingInv(s: State) {
    s.mem.pending == |PendingTasks(s.tasks)|
  }

  ghost function PendingTasks(tasks: map<TaskId, Pc>): set<TaskId> {
    set t | t in tasks && Pends(tasks[t])
  }

  ghost predicate Owns(m: Memory, t: TaskId, held: Option<nat>) {
    held.Some? ==> held.value in m.owner && m.owner[held.value] == t
  }

  /** Live tasks and outstanding nonces correspond one to one. */
  ghost predicate OwnerInv(m: Memory, tasks: map<TaskId, Pc>) {
    && (forall t | t in tasks :: Owns(m, t, LiveNonce(tasks[t])))
    && (!m.rewound ==> forall t | t in tasks :: Owns(m, t, SettledNonce(tasks[t])))
    && (forall n | n in m.owner :: m.owner[n] in tasks && Holds(tasks[m.owner[n]], n))
  }

  predicate Holds(pc: Pc, n: nat) {
    LiveNonce(pc) == Some(n) || SettledNonce(pc) == Some(n)
  }

  ghost predicate Below(m: Memory) {
    forall n | n in m.owner :: n < m.current
  }

  /** `[lo, current)` splits into the gaps, the outstanding nonces, and those in `limbo`. */
  ghost predicate Split(m: Memory, lo: nat, limbo: set<nat>) {
    && (forall n | n in m.gaps :: lo <= n < m.current && n !in m.owner && n !in limbo)
    && (forall n | n in limbo :: n !in m.owner)
    && (forall n | lo <= n < m.current :: n in m.gaps || n in m.owner || n in limbo)
  }

  /** No free nonce sits right below the counter. */
  ghost predicate Tight(m: Memory) {
    m.current <= m.synced || m.current - 1 in m.owner
  }

  ghost predicate AllOwned(m: Memory, lo: nat) {
    forall n | lo <= n < m.current :: n in m.owner
  }

  /** What holds of the shared memory between operations. */
  ghost predicate Quiet(m: Memory) {
    m.synced <= m.current && Split(m, m.synced, {}) && Tight(m) && m.gapCount == |m.gaps|
  }

  ghost predicate ReserveInv(m: Memory, at: ReserveAt) {
    && m.synced <= m.current && Split(m, m.synced, {}) && Tight(m)
    && m.gapCount == |m.gaps| + (if at.Count? then 1 else 0)
  }

  ghost predicate RecycleInv(m: Memory, n: nat, at: RecycleAt) {
    && m.synced <= m.current && Split(m, m.synced, {}) && Tight(m)
    && m.gapCount + (if at.Count? then 1 else 0) == |m.gaps|
    && (at.Cas? || at.Top? || at.Insert? ==> m.synced <= n)
    && (at.Top? ==> n + 1 < m.current)
    && (at.Insert? ==> n + 1 < at.seen <= m.current)
  }

  /** A collapse may leave a gap right below the counter it last saw. */
  ghost predicate CollapseInv(m: Memory, at: CollapseAt) {
    && m.synced <= m.current
    && Split(m, m.synced, if at.Cas? then {at.previous} else {})
    && m.gapCount == |m.gaps| + (if at.Cas? || at.Count? then 1 else 0)
    && (at.Floor? || at.Cas? ==> at.previous < m.current && (at.previous + 1 < m.current ==> Tight(m)))
    && (at.Cas? ==> m.synced <= at.previous)
  }

  /** A sync has pruned below the chain, then raised the floor, while the counter may lag behind. */
  ghost predicate SyncInv(m: Memory, chain: nat, at: SyncAt) {
    && (m.synced <= m.current || ((at.Load? || at.Cas?) && m.synced == chain))
    && Split(m, if at.Count? || at.Floor? then Max(m.synced, chain) else m.synced, {})
    && Tight(m)
    && (at.Count? || m.gapCount == |m.gaps|)
    && (at.Load? || at.Cas? ==> chain <= m.synced)
    && (at.Cas? ==> at.seen < chain && at.seen <= m.current)
  }

  /** From a successful rewind until it stores the floor, only the nonces issued since are known. */
  ghost predicate RewindInv(m: Memory, chain: nat, at: RewindAt) {
    if at.Clear? || at.Count? || at.Floor? then
      && chain <= m.current && AllOwned(m, chain)
      && (at.Clear? || m.gaps == {})
      && (at.Floor? ==> m.gapCount == 0)
    else
      Quiet(m) && (at.Cas? ==> chain < at.seen <= m.current)
  }

  /** What holds of the shared memory while the lock holder is at `pc`. */
  ghost predicate PhaseInv(m: Memory, pc: Pc) {
    match pc
    case Reserving(at) => ReserveInv(m, at)
    case Recycling(n, at) => RecycleInv(m, n, at)
    case Collapsing(_, at) => CollapseInv(m, at)
    case Syncing(chain, at) => SyncInv(m, chain, at)
    case Rewinding(chain, at) => RewindInv(m, chain, at)
    case _ => Quiet(m)
  }

  ghost function HolderPc(s: State): Pc
    requires LockInv(s)
  {
    if s.lock.None? then ReserveStart else s.tasks[s.lock.value]
  }

  ghost predicate MemoryInv(s: State) {
    LockInv(s) && OwnerInv(s.mem, s.tasks) && Below(s.mem) && PhaseInv(s.mem, HolderPc(s))
  }

  /** The pending count is always right; the rest holds until the counter wraps. */
  ghost predicate Inv(s: State) {
    LockInv(s) && PendingInv(s) && (!s.mem.exhausted ==> MemoryInv(s))
  }

  // ---------- Lock and pending count ----------

  lemma PendingAfterMove(tasks: map<TaskId, Pc>, t: TaskId, pc: Pc)
    ensures |PendingTasks(tasks[t := pc])| ==
            |PendingTasks(tasks)| - (if t in tasks && Pends(tasks[t]) then 1 else 0) + (if Pends(pc) then 1 else 0)
  {
    var others := set u | u in tasks && u != t && Pends(tasks[u]);
    var after := tasks[t := pc];
    assert others == set u | u in after && u != t && Pends(after[u]);
    PendingWith(tasks, t, others);
    PendingWith(after, t, others);
  }

  lemma PendingWith(tasks: map<TaskId, Pc>, t: TaskId, others: set<TaskId>)
    requires others == set u | u in tasks && u != t && Pends(tasks[u])
    ensures |PendingTasks(tasks)| == |others| + if t in tasks && Pends(tasks[t]) then 1 else 0
  {
    assert PendingTasks(tasks) == if t in tasks && Pends(tasks[t]) then others + {t} else others;
  }

  /** How a move changes the pending count. */
  ghost predicate PendingEffect(m: Memory, was: bool, m': Memory, now: bool) {
    m'.pending == (if was == now then m.pending else if was then Decrement(m.pending) else m.pending + 1)
  }

  lemma MovePending(m: Memory, pc: Pc, t: TaskId)
    requires !Resting(pc)
    ensures var r := AdvanceMove(m, pc, t); PendingEffect(m, Pends(pc), r.mem, Pends(r.pc))
  {
  }

  lemma StepKeepsPending(s: State, a: Action)
    requires PendingInv(s) && Enabled(s, a)
    ensures PendingInv(Step(s, a))
  {
    var r := MoveOf(s, a);
    if a.Advance? {
      MovePending(s.mem, s.tasks[a.t], a.t);
    }
    PendingAfterMove(s.tasks, a.t, r.pc);
    if a.t in s.tasks && Pends(s.tasks[a.t]) {
      assert a.t in PendingTasks(s.tasks);
    }
  }

  lemma MoveTakesFreeLock(m: Memory, pc: Pc, t: TaskId)
    requires !Resting(pc) && !Locked(pc)
    ensures Locked(AdvanceMove(m, pc, t).pc) ==> WantsLock(pc)
  {
  }

  lemma StepKeepsLock(s: State, a: Action)
    requires LockInv(s) && Enabled(s, a)
    ensures LockInv(Step(s, a))
  {
    var r := MoveOf(s, a);
    if a.Advance? {
      if !Locked(s.tasks[a.t]) {
        MoveTakesFreeLock(s.mem, s.tasks[a.t], a.t);
      }
    } else {
      assert !Locked(r.pc);
    }
  }

  // ---------- One move and the memory ----------

  /** The four ways a move changes who owns what. */
  ghost predicate OwnerEffect(m: Memory, pc: Pc, t: TaskId, r: Move) {
    || Kept(m, pc, r)
    || Issues(m, pc, t, r)
    || Returns(m, pc, r)
    || Rewinds(m, pc, r)
  }

  ghost predicate Kept(m: Memory, pc: Pc, r: Move) {
    && r.mem.owner == m.owner && r.mem.rewound == m.rewound
    && LiveNonce(r.pc) == LiveNonce(pc) && SettledNonce(r.pc) == SettledNonce(pc)
  }

  ghost predicate Issues(m: Memory, pc: Pc, t: TaskId, r: Move) {
    && LiveNonce(pc).None? && SettledNonce(pc).None?
    && LiveNonce(r.pc).Some? && SettledNonce(r.pc).None?
    && var n := LiveNonce(r.pc).value;
       n !in m.owner && r.mem.owner == m.owner[n := t] && r.mem.rewound == m.rewound
  }

  ghost predicate Returns(m: Memory, pc: Pc, r: Move) {
    && LiveNonce(pc).Some?
    && LiveNonce(r.pc).None? && SettledNonce(r.pc).None?
    && r.mem.owner == m.owner - {LiveNonce(pc).value} && r.mem.rewound == m.rewound
  }

  ghost predicate Rewinds(m: Memory, pc: Pc, r: Move) {
    && RewindLands(m, pc)
    && LiveNonce(r.pc).None? && SettledNonce(r.pc).None?
    && r.mem.owner == (map n | n in m.owner && n < pc.chain :: m.owner[n]) && r.mem.rewound
  }

  /** What a locked move must establish. */
  ghost predicate MoveSafe(m: Memory, pc: Pc, t: TaskId, r: Move) {
    OwnerEffect(m, pc, t, r) && Below(r.mem) && PhaseInv(r.mem, r.pc) && r.mem.exhausted == m.exhausted
  }

  lemma TakeGap(m: Memory, lo: nat, p: nat)
    requires Split(m, lo, {}) && p in m.gaps
    ensures Split(m.(gaps := m.gaps - {p}), lo, {p}) && |m.gaps - {p}| + 1 == |m.gaps|
  {
  }

  lemma PutGap(m: Memory, lo: nat, p: nat)
    requires Split(m, lo, {p}) && lo <= p < m.current
    ensures Split(m.(gaps := m.gaps + {p}), lo, {}) && |m.gaps + {p}| == |m.gaps| + 1
  {
    assert p !in m.gaps;
  }

  lemma LowerCounter(m: Memory, lo: nat, p: nat)
    requires Split(m, lo, {p}) && Below(m) && m.current == p + 1
    ensures var m' := m.(current := p); Split(m', lo, {}) && Below(m')
  {
    forall n | n in m.owner ensures n < p {
      assert n != p;
    }
  }

  lemma FreeOwned(m: Memory, lo: nat, n: nat)
    requires Split(m, lo, {}) && n in m.owner
    ensures Split(m.(owner := m.owner - {n}), lo, {n})
  {
  }

  lemma ReserveMoveSafe(m: Memory, at: ReserveAt, t: TaskId)
    requires ReserveInv(m, at) && Below(m)
    ensures MoveSafe(m, Reserving(at), t, ReserveMove(m, at, t))
  {
    if at.First? && m.gaps != {} {
      PopSafe(m, t);
    }
  }

  lemma PopSafe(m: Memory, t: TaskId)
    requires ReserveInv(m, First) && Below(m) && m.gaps != {}
    ensures MoveSafe(m, Reserving(First), t, ReserveMove(m, First, t))
  {
    var r := ReserveMove(m, First, t);
    TakeGap(m, m.synced, Least(m.gaps));
    assert Issues(m, Reserving(First), t, r);
  }

  lemma RecycleInsertSafe(m: Memory, n: nat, seen: nat, t: TaskId)
    requires RecycleInv(m, n, Insert(seen)) && Below(m) && n in m.owner
    ensures MoveSafe(m, Recycling(n, Insert(seen)), t, RecycleMove(m, n, Insert(seen)))
  {
    assert Returns(m, Recycling(n, Insert(seen)), RecycleMove(m, n, Insert(seen)));
    FreeOwned(m, m.synced, n);
    PutGap(m.(owner := m.owner - {n}), m.synced, n);
  }

  lemma RecycleCasSafe(m: Memory, n: nat, t: TaskId)
    requires RecycleInv(m, n, RecycleAt.Cas) && Below(m) && n in m.owner
    ensures MoveSafe(m, Recycling(n, RecycleAt.Cas), t, RecycleMove(m, n, RecycleAt.Cas))
  {
    if n < U64_MAX && m.current == n + 1 {
      assert Returns(m, Recycling(n, RecycleAt.Cas), RecycleMove(m, n, RecycleAt.Cas));
      FreeOwned(m, m.synced, n);
      LowerCounter(m.(owner := m.owner - {n}), m.synced, n);
    }
  }

  lemma RecycleMoveSafe(m: Memory, n: nat, at: RecycleAt, t: TaskId)
    requires RecycleInv(m, n, at) && Below(m) && Owns(m, t, LiveNonce(Recycling(n, at)))
    ensures MoveSafe(m, Recycling(n, at), t, RecycleMove(m, n, at))
  {
    if at.Insert? {
      RecycleInsertSafe(m, n, at.seen, t);
    } else if at.Cas? {
      RecycleCasSafe(m, n, t);
    } else if at.Count? {
      RangeBoundsCardinality(m.gaps, 0, m.current);
    } else if at.Floor? && n < m.synced {
      assert Returns(m, Recycling(n, at), RecycleMove(m, n, at));
    }
  }

  lemma CollapseFloorSafe(m: Memory, n: nat, previous: nat, t: TaskId)
    requires CollapseInv(m, CollapseAt.Floor(previous)) && Below(m)
    ensures MoveSafe(m, Collapsing(n, CollapseAt.Floor(previous)), t, CollapseMove(m, n, CollapseAt.Floor(previous)))
  {
    if previous >= m.synced && previous in m.gaps {
      TakeGap(m, m.synced, previous);
    }
  }

  lemma CollapseCasSafe(m: Memory, n: nat, previous: nat, t: TaskId)
    requires CollapseInv(m, CollapseAt.Cas(previous)) && Below(m)
    ensures MoveSafe(m, Collapsing(n, CollapseAt.Cas(previous)), t, CollapseMove(m, n, CollapseAt.Cas(previous)))
  {
    if m.current == previous + 1 {
      CollapseLowersSafe(m, n, previous, t);
    } else {
      CollapsePutsBackSafe(m, n, previous, t);
    }
  }

  lemma CollapseLowersSafe(m: Memory, n: nat, previous: nat, t: TaskId)
    requires CollapseInv(m, CollapseAt.Cas(previous)) && Below(m) && m.current == previous + 1
    ensures MoveSafe(m, Collapsing(n, CollapseAt.Cas(previous)), t, CollapseMove(m, n, CollapseAt.Cas(previous)))
  {
    LowerCounter(m, m.synced, previous);
  }

  lemma CollapsePutsBackSafe(m: Memory, n: nat, previous: nat, t: TaskId)
    requires CollapseInv(m, CollapseAt.Cas(previous)) && Below(m) && m.current != previous + 1
    ensures MoveSafe(m, Collapsing(n, CollapseAt.Cas(previous)), t, CollapseMove(m, n, CollapseAt.Cas(previous)))
  {
    PutGap(m, m.synced, previous);
  }

  lemma CollapseMoveSafe(m: Memory, n: nat, at: CollapseAt, t: TaskId)
    requires CollapseInv(m, at) && Below(m)
    ensures MoveSafe(m, Collapsing(n, at), t, CollapseMove(m, n, at))
  {
    if at.Floor? {
      CollapseFloorSafe(m, n, at.previous, t);
    } else if at.Cas? {
      CollapseCasSafe(m, n, at.previous, t);
    }
  }

  lemma SyncRetainSafe(m: Memory, chain: u64, t: TaskId)
    requires SyncInv(m, chain, Retain) && Below(m)
    ensures MoveSafe(m, Syncing(chain, Retain), t, SyncMove(m, chain, Retain))
  {
  }

  lemma SyncCountSafe(m: Memory, chain: u64, t: TaskId)
    requires SyncInv(m, chain, SyncAt.Count) && Below(m)
    ensures MoveSafe(m, Syncing(chain, SyncAt.Count), t, SyncMove(m, chain, SyncAt.Count))
  {
    RangeBoundsCardinality(m.gaps, 0, m.current);
  }

  lemma SyncCasSafe(m: Memory, chain: u64, seen: nat, t: TaskId)
    requires SyncInv(m, chain, SyncAt.Cas(seen)) && Below(m)
    ensures MoveSafe(m, Syncing(chain, SyncAt.Cas(seen)), t, SyncMove(m, chain, SyncAt.Cas(seen)))
  {
  }

  lemma SyncMoveSafe(m: Memory, chain: u64, at: SyncAt, t: TaskId)
    requires SyncInv(m, chain, at) && Below(m)
    ensures MoveSafe(m, Syncing(chain, at), t, SyncMove(m, chain, at))
  {
    match at
    case Retain => SyncRetainSafe(m, chain, t);
    case Count => SyncCountSafe(m, chain, t);
    case Cas(seen) => SyncCasSafe(m, chain, seen, t);
    case _ =>
  }

  lemma RewindMoveSafe(m: Memory, chain: u64, at: RewindAt, t: TaskId)
    requires RewindInv(m, chain, at) && Below(m)
    ensures MoveSafe(m, Rewinding(chain, at), t, RewindMove(m, chain, at))
  {
    if at.Cas? {
      RewindCasSafe(m, chain, at.seen, t);
    } else if at.Load? || at.Unlock? {
    } else {
      RewindStoresSafe(m, chain, at, t);
    }
  }

  lemma RewindCasSafe(m: Memory, chain: u64, seen: nat, t: TaskId)
    requires RewindInv(m, chain, RewindAt.Cas(seen)) && Below(m)
    ensures MoveSafe(m, Rewinding(chain, RewindAt.Cas(seen)), t, RewindMove(m, chain, RewindAt.Cas(seen)))
  {
    if m.current == seen {
      assert Rewinds(m, Rewinding(chain, RewindAt.Cas(seen)), RewindMove(m, chain, RewindAt.Cas(seen)));
    }
  }

  lemma RewindStoresSafe(m: Memory, chain: u64, at: RewindAt, t: TaskId)
    requires RewindInv(m, chain, at) && Below(m) && (at.Clear? || at.Count? || at.Floor?)
    ensures MoveSafe(m, Rewinding(chain, at), t, RewindMove(m, chain, at))
  {
  }

  /** The memory after a nonce is taken from the counter. */
  ghost function Fetched(m: Memory, t: TaskId): Memory {
    UnlockedMove(m, ReserveFetch, t).mem
  }

  lemma FetchKeepsSplit(m: Memory, t: TaskId, lo: nat, limbo: set<nat>)
    requires Split(m, lo, limbo) && Below(m) && m.current < U64_MAX
    requires forall n | n in limbo :: n < m.current
    ensures Split(Fetched(m, t), lo, limbo) && Below(Fetched(m, t)) && Tight(Fetched(m, t))
  {
  }

  lemma FetchKeepsBelow(m: Memory, t: TaskId)
    requires Below(m) && m.current < U64_MAX
    ensures Below(Fetched(m, t)) && Issues(m, ReserveFetch, t, UnlockedMove(m, ReserveFetch, t))
  {
  }

  lemma FetchKeepsCollapse(m: Memory, at: CollapseAt, t: TaskId)
    requires CollapseInv(m, at) && Below(m) && m.current < U64_MAX
    ensures CollapseInv(Fetched(m, t), at)
  {
    FetchKeepsSplit(m, t, m.synced, if at.Cas? then {at.previous} else {});
  }

  lemma FetchKeepsSync(m: Memory, chain: nat, at: SyncAt, t: TaskId)
    requires SyncInv(m, chain, at) && Below(m) && m.current < U64_MAX
    ensures SyncInv(Fetched(m, t), chain, at)
  {
    FetchKeepsSplit(m, t, if at.Count? || at.Floor? then Max(m.synced, chain) else m.synced, {});
  }

  lemma FetchKeepsRewind(m: Memory, chain: nat, at: RewindAt, t: TaskId)
    requires RewindInv(m, chain, at) && Below(m) && m.current < U64_MAX
    ensures RewindInv(Fetched(m, t), chain, at)
  {
    if !(at.Clear? || at.Count? || at.Floor?) {
      FetchKeepsSplit(m, t, m.synced, {});
    }
  }

  /** A nonce taken from the counter without the lock disturbs no lock holder. */
  lemma FetchKeepsPhase(m: Memory, holder: Pc, t: TaskId)
    requires PhaseInv(m, holder) && Below(m) && m.current < U64_MAX
    ensures PhaseInv(Fetched(m, t), holder)
  {
    match holder
    case Collapsing(_, at) => FetchKeepsCollapse(m, at, t);
    case Syncing(chain, at) => FetchKeepsSync(m, chain, at, t);
    case Rewinding(chain, at) => FetchKeepsRewind(m, chain, at, t);
    case _ => FetchKeepsSplit(m, t, m.synced, {});
  }

  // ---------- One step and the whole invariant ----------

  function PcOf(tasks: map<TaskId, Pc>, t: TaskId): Pc {
    if t in tasks then tasks[t] else ReserveStart
  }

  lemma OwnersKept(m: Memory, tasks: map<TaskId, Pc>, t: TaskId, r: Move)
    requires OwnerInv(m, tasks) && Kept(m, PcOf(tasks, t), r)
    ensures OwnerInv(r.mem, tasks[t := r.pc])
  {
  }

  lemma OwnerAdded(m: Memory, tasks: map<TaskId, Pc>, t: TaskId, r: Move)
    requires OwnerInv(m, tasks) && Issues(m, PcOf(tasks, t), t, r)
    ensures OwnerInv(r.mem, tasks[t := r.pc])
  {
  }

  lemma OwnerRemoved(m: Memory, tasks: map<TaskId, Pc>, t: TaskId, r: Move)
    requires OwnerInv(m, tasks) && t in tasks && Returns(m, tasks[t], r)
    ensures OwnerInv(r.mem, tasks[t := r.pc])
  {
  }

  lemma OwnersRewound(s: State, t: TaskId, r: Move)
    requires OwnerInv(s.mem, s.tasks) && t in s.tasks && Rewinds(s.mem, s.tasks[t], r)
    requires RewindJustified(s, s.tasks[t].chain)
    ensures OwnerInv(r.mem, s.tasks[t := r.pc])
  {
    forall u | u in s.tasks && u != t ensures Owns(r.mem, u, LiveNonce(s.tasks[u])) {
      assert Owns(s.mem, u, LiveNonce(s.tasks[u]));
    }
  }

  /** A guard that commits, or is dropped while broadcasting, still owns its nonce. */
  lemma OwnerSettles(m: Memory, tasks: map<TaskId, Pc>, t: TaskId, r: Move)
    requires OwnerInv(m, tasks) && t in tasks
    requires LiveNonce(tasks[t]).Some? && LiveNonce(r.pc).None? && SettledNonce(r.pc) == LiveNonce(tasks[t])
    requires r.mem.owner == m.owner && r.mem.rewound == m.rewound
    ensures OwnerInv(r.mem, tasks[t := r.pc])
  {
  }

  lemma SplitIgnoresPending(m: Memory, pending: nat, lo: nat, limbo: set<nat>)
    requires Split(m, lo, limbo)
    ensures Split(m.(pending := pending), lo, limbo)
  {
  }

  /** The pending count does not enter the memory invariant. */
  lemma PendingIsFree(m: Memory, pc: Pc, pending: nat)
    requires PhaseInv(m, pc) && Below(m)
    ensures PhaseInv(m.(pending := pending), pc) && Below(m.(pending := pending))
  {
    if pc.Collapsing? && pc.collapseAt.Cas? {
      SplitIgnoresPending(m, pending, m.synced, {pc.collapseAt.previous});
    } else if pc.Syncing? && (pc.syncAt.Count? || pc.syncAt.Floor?) {
      SplitIgnoresPending(m, pending, Max(m.synced, pc.chain), {});
    } else if !pc.Rewinding? || pc.rewindAt.Load? || pc.rewindAt.Cas? || pc.rewindAt.Unlock? {
      SplitIgnoresPending(m, pending, m.synced, {});
    } else {
      assert AllOwned(m.(pending := pending), pc.chain);
    }
  }

  /** A lock holder's step. */
  lemma LockedStepKeeps(s: State, t: TaskId)
    requires MemoryInv(s) && Enabled(s, Advance(t)) && Locked(s.tasks[t])
    ensures MemoryInv(Step(s, Advance(t)))
  {
    var pc, m := s.tasks[t], s.mem;
    var r := AdvanceMove(m, pc, t);
    LockedMoveSafe(m, pc, t);
    StepKeepsLock(s, Advance(t));
    assert s.lock == Some(t);
    LockedMoveOwners(s, t, r);
  }

  lemma LockedMoveOwners(s: State, t: TaskId, r: Move)
    requires OwnerInv(s.mem, s.tasks) && t in s.tasks && OwnerEffect(s.mem, s.tasks[t], t, r)
    requires RewindLands(s.mem, s.tasks[t]) ==> RewindJustified(s, s.tasks[t].chain)
    ensures OwnerInv(r.mem, s.tasks[t := r.pc])
  {
    var pc, m := s.tasks[t], s.mem;
    if Kept(m, pc, r) {
      OwnersKept(m, s.tasks, t, r);
    } else if Issues(m, pc, t, r) {
      OwnerAdded(m, s.tasks, t, r);
    } else if Returns(m, pc, r) {
      OwnerRemoved(m, s.tasks, t, r);
    } else {
      OwnersRewound(s, t, r);
    }
  }

  lemma LockedMoveSafe(m: Memory, pc: Pc, t: TaskId)
    requires Locked(pc) && PhaseInv(m, pc) && Below(m) && Owns(m, t, LiveNonce(pc))
    ensures MoveSafe(m, pc, t, AdvanceMove(m, pc, t))
  {
    match pc
    case Reserving(at) => ReserveMoveSafe(m, at, t);
    case Recycling(n, at) => RecycleMoveSafe(m, n, at, t);
    case Collapsing(n, at) => CollapseMoveSafe(m, n, at, t);
    case Syncing(chain, at) => SyncMoveSafe(m, chain, at, t);
    case Rewinding(chain, at) => RewindMoveSafe(m, chain, at, t);
  }

  /** A step of a task without the lock that does not take it leaves the lock holder where it was. */
  lemma HolderStays(s: State, a: Action)
    requires LockInv(s) && Enabled(s, a) && !Locked(PcOf(s.tasks, a.t)) && !Locked(MoveOf(s, a).pc)
    ensures LockInv(Step(s, a)) && HolderPc(Step(s, a)) == HolderPc(s)
  {
    StepKeepsLock(s, a);
    var s' := Step(s, a);
    assert s.lock != Some(a.t);
    assert s'.lock == s.lock;
  }

  lemma WantedLockMove(m: Memory, pc: Pc, t: TaskId)
    requires WantsLock(pc) && Quiet(m)
    ensures var r := AdvanceMove(m, pc, t); r.mem == m && Locked(r.pc) && Kept(m, pc, r) && PhaseInv(m, r.pc)
  {
  }

  /** Taking a free lock starts from the quiet state. */
  lemma LockStepKeeps(s: State, t: TaskId)
    requires MemoryInv(s) && Enabled(s, Advance(t)) && WantsLock(s.tasks[t])
    ensures MemoryInv(Step(s, Advance(t)))
  {
    var r := AdvanceMove(s.mem, s.tasks[t], t);
    StepKeepsLock(s, Advance(t));
    assert Quiet(s.mem);
    WantedLockMove(s.mem, s.tasks[t], t);
    OwnersKept(s.mem, s.tasks, t, r);
    assert HolderPc(Step(s, Advance(t))) == r.pc;
  }

  /** Taking a nonce from the counter, with or without another task holding the lock. */
  lemma FetchStepKeeps(s: State, t: TaskId)
    requires MemoryInv(s) && Enabled(s, Advance(t)) && s.tasks[t].ReserveFetch? && s.mem.current < U64_MAX
    ensures MemoryInv(Step(s, Advance(t)))
  {
    var r := UnlockedMove(s.mem, ReserveFetch, t);
    HolderStays(s, Advance(t));
    FetchKeepsPhase(s.mem, HolderPc(s), t);
    FetchKeepsBelow(s.mem, t);
    OwnerAdded(s.mem, s.tasks, t, r);
  }

  /** Steps without the lock that neither take it nor fetch a nonce. */
  ghost predicate Light(s: State, a: Action)
    requires Enabled(s, a)
  {
    a.Advance? ==> s.tasks[a.t].ReserveStart? || s.tasks[a.t].ReserveCheck?
  }

  /** They touch at most the pending count. */
  lemma LightMove(s: State, a: Action)
    requires Enabled(s, a) && Light(s, a)
    ensures var r := MoveOf(s, a);
            && r.mem == s.mem.(pending := r.mem.pending)
            && !Locked(PcOf(s.tasks, a.t)) && !Locked(r.pc)
            && (|| Kept(s.mem, PcOf(s.tasks, a.t), r)
                || (LiveNonce(s.tasks[a.t]).Some? && LiveNonce(r.pc).None? && SettledNonce(r.pc) == LiveNonce(s.tasks[a.t])))
  {
  }

  lemma LightStepKeeps(s: State, a: Action)
    requires MemoryInv(s) && Enabled(s, a) && Light(s, a)
    ensures MemoryInv(Step(s, a))
  {
    var r := MoveOf(s, a);
    LightMove(s, a);
    HolderStays(s, a);
    PendingIsFree(s.mem, HolderPc(s), r.mem.pending);
    if Kept(s.mem, PcOf(s.tasks, a.t), r) {
      OwnersKept(s.mem, s.tasks, a.t, r);
    } else {
      OwnerSettles(s.mem, s.tasks, a.t, r);
    }
  }

  /** The invariant holds initially. */
  lemma InitInv(initialNonce: u64)
    ensures Inv(Init(initialNonce)) && !Init(initialNonce).mem.exhausted
  {
    assert PendingTasks(map[]) == {};
  }

  /** Every step keeps the invariant. */
  lemma StepKeepsInv(s: State, a: Action)
    requires Inv(s) && Enabled(s, a)
    ensures Inv(Step(s, a))
  {
    StepKeepsLock(s, a);
    StepKeepsPending(s, a);
    var s' := Step(s, a);
    StepHistory(s, a);
    if !s'.mem.exhausted {
      if a.Advance? && Locked(s.tasks[a.t]) {
        LockedStepKeeps(s, a.t);
      } else if a.Advance? && WantsLock(s.tasks[a.t]) {
        LockStepKeeps(s, a.t);
      } else if a.Advance? && s.tasks[a.t].ReserveFetch? {
        FetchStepKeeps(s, a.t);
      } else {
        LightStepKeeps(s, a);
      }
    }
  }

  lemma MoveHistory(m: Memory, pc: Pc, t: TaskId)
    requires !Resting(pc)
    ensures var r := AdvanceMove(m, pc, t);
            && (r.mem.exhausted <==> m.exhausted || (pc.ReserveFetch? && m.current == U64_MAX))
            && (r.mem.rewound <==> m.rewound || RewindLands(m, pc))
  {
  }

  /**
   * The counter wraps in exactly one way: a nonce is fetched at the last 64-bit value. The floor is
   * lowered in exactly one way: a rewind's compare-and-swap succeeds.
   */
  lemma StepHistory(s: State, a: Action)
    requires Enabled(s, a)
    ensures Step(s, a).mem.exhausted <==>
            s.mem.exhausted || (a.Advance? && s.tasks[a.t].ReserveFetch? && s.mem.current == U64_MAX)
    ensures Step(s, a).mem.rewound <==>
            s.mem.rewound || (a.Advance? && RewindLands(s.mem, s.tasks[a.t]))
  {
    if a.Advance? {
      MoveHistory(s.mem, s.tasks[a.t], a.t);
    } else {
      LightMove(s, a);
    }
  }
}
