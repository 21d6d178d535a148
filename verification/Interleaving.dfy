/**
 * The nonce tracker under any number of threads, one step per atomic access.
 *
 * A task is one reservation from its first atomic access to the end of its guard, or one chain
 * sync, or one forced rewind. A thread that runs several of these in turn is one of the
 * interleavings. Steps marked by a locked program counter hold the gap lock; the counter, the
 * pending count and the cached gap count are also touched without it.
 */
module Interleaving {
  import opened Words

  type TaskId = nat

  datatype Pc =
    // reserve
    | ReserveStart
    | ReserveCheck
    | ReserveLock
    | Reserving(reserveAt: ReserveAt)
    | ReserveFetch
    // the guard between calls
    | Held(n: nat)
    | Broadcasting(n: nat)
    | Committed(n: nat)
    | Abandoned(n: nat)
    | Released(n: nat)
    // release
    | RecycleLock(n: nat)
    | Recycling(n: nat, recycleAt: RecycleAt)
    | Collapsing(n: nat, collapseAt: CollapseAt)
    // sync_forward
    | SyncLock(chain: u64)
    | Syncing(chain: u64, syncAt: SyncAt)
    | SyncDone
    // recover_stalled
    | RewindLock(chain: u64)
    | Rewinding(chain: u64, rewindAt: RewindAt)
    | RewindDone

  // Program points under the gap lock, named by the access that is due.
  datatype ReserveAt = First | Count(n: nat) | Unlock(n: nat) | Missed
  datatype RecycleAt = Floor | Cas | Top | Insert(seen: nat) | Count | Unlock
  datatype CollapseAt = Top | Floor(previous: nat) | Cas(previous: nat) | Count
  datatype SyncAt = Retain | Count | Floor | Load | Cas(seen: nat) | Unlock
  datatype RewindAt = Load | Cas(seen: nat) | Clear | Count | Floor | Unlock

  /** Program counters at which a task holds the gap lock. */
  predicate Locked(pc: Pc) {
    pc.Reserving? || pc.Recycling? || pc.Collapsing? || pc.Syncing? || pc.Rewinding?
  }

  predicate WantsLock(pc: Pc) {
    pc.ReserveLock? || pc.RecycleLock? || pc.SyncLock? || pc.RewindLock?
  }

  /** Between two calls on the guard, or finished: no atomic access is due. */
  predicate Resting(pc: Pc) {
    || pc.Held? || pc.Broadcasting? || pc.Committed? || pc.Abandoned? || pc.Released?
    || pc.SyncDone? || pc.RewindDone?
  }

  /** The nonce a task holds and may still return. */
  function LiveNonce(pc: Pc): Option<nat> {
    if pc.Held? || pc.Broadcasting? || pc.RecycleLock? then Some(pc.n)
    else if pc.Reserving? && (pc.reserveAt.Count? || pc.reserveAt.Unlock?) then Some(pc.reserveAt.n)
    else if pc.Recycling? && !pc.recycleAt.Count? && !pc.recycleAt.Unlock? then Some(pc.n)
    else None
  }

  /** The nonce of a guard that committed, or went out of scope while broadcasting. */
  function SettledNonce(pc: Pc): Option<nat> {
    if pc.Committed? || pc.Abandoned? then Some(pc.n) else None
  }

  /** Whether a task is one of those `pending_count` counts. */
  predicate Pends(pc: Pc) {
    || pc.ReserveCheck? || pc.ReserveLock? || pc.Reserving? || pc.ReserveFetch?
    || pc.Held? || pc.Broadcasting? || pc.Abandoned?
  }

  /**
   * Shared memory: the four atomics and the locked set of gaps. `owner` (who was handed each nonce
   * that has not come back), `exhausted` (the counter wrapped) and `rewound` record history for the
   * statements about runs; no step depends on them.
   */
  datatype Memory = Memory(
    current: u64,
    pending: nat,
    synced: u64,
    gaps: set<nat>,
    gapCount: u64,
    owner: map<nat, TaskId>,
    exhausted: bool,
    rewound: bool)

  datatype State = State(mem: Memory, lock: Option<TaskId>, tasks: map<TaskId, Pc>)

  /** What one step does: the task's next program counter and the memory it leaves. */
  datatype Move = Move(pc: Pc, mem: Memory)

  datatype Action =
    | SpawnReserve(t: TaskId)
    | SpawnSync(t: TaskId, chain: u64)
    | SpawnRewind(t: TaskId, chain: u64)
    | Advance(t: TaskId)
    | MarkBroadcasting(t: TaskId)
    | Commit(t: TaskId)
    | Release(t: TaskId)
    | ReleaseRejected(t: TaskId)
    | Drop(t: TaskId)

  function Init(initialNonce: u64): State {
    State(Memory(initialNonce, 0, initialNonce, {}, 0, map[], false, false), None, map[])
  }

  /**
   * What a caller of `recover_stalled` must have established: no guard at or above `chain` can
   * still return its nonce.
   */
  ghost predicate RewindJustified(s: State, chain: nat) {
    forall n | n in s.mem.owner && chain <= n ::
      s.mem.owner[n] in s.tasks && SettledNonce(s.tasks[s.mem.owner[n]]).Some?
  }

  /** The compare-and-swap of a rewind is due and will succeed. */
  predicate RewindLands(m: Memory, pc: Pc) {
    pc.Rewinding? && pc.rewindAt.Cas? && m.current == pc.rewindAt.seen
  }

  predicate Spawns(a: Action) {
    a.SpawnReserve? || a.SpawnSync? || a.SpawnRewind?
  }

  ghost predicate Enabled(s: State, a: Action) {
    if Spawns(a) then a.t !in s.tasks
    else
      && a.t in s.tasks
      && var pc := s.tasks[a.t];
         match a
         case Advance(t) =>
           && !Resting(pc)
           && (WantsLock(pc) ==> s.lock.None?)
           && (RewindLands(s.mem, pc) ==> RewindJustified(s, pc.chain))
         case MarkBroadcasting(t) => pc.Held?
         case Commit(t) => pc.Held? || pc.Broadcasting?
         case Release(t) => pc.Held?
         case ReleaseRejected(t) => pc.Broadcasting?
         case Drop(t) => pc.Held? || pc.Broadcasting?
         case _ => true
  }

  ghost function Least(s: set<nat>): (n: nat)
    requires s != {}
    ensures n in s && forall m | m in s :: n <= m
  {
    LeastExists(s);
    var n :| n in s && forall m | m in s :: n <= m;
    n
  }

  function Decrement(pending: nat): nat {
    if pending == 0 then 0 else pending - 1
  }

  /** The nonce an action hands out, if it hands one out. */
  ghost function Issued(s: State, a: Action): Option<nat>
    requires Enabled(s, a)
  {
    if !a.Advance? then None
    else if s.tasks[a.t].ReserveFetch? then Some(s.mem.current)
    else if s.tasks[a.t] == Reserving(First) && s.mem.gaps != {} then Some(Least(s.mem.gaps))
    else None
  }

  /** One step: the acting task moves, and holds the lock exactly while its program counter is locked. */
  ghost function Step(s: State, a: Action): State
    requires Enabled(s, a)
  {
    var m := MoveOf(s, a);
    State(m.mem,
          if Locked(m.pc) then Some(a.t) else if s.lock == Some(a.t) then None else s.lock,
          s.tasks[a.t := m.pc])
  }

  ghost function MoveOf(s: State, a: Action): Move
    requires Enabled(s, a)
  {
    match a
    case SpawnReserve(_) => Move(ReserveStart, s.mem)
    case SpawnSync(_, chain) => Move(SyncLock(chain), s.mem)
    case SpawnRewind(_, chain) => Move(RewindLock(chain), s.mem)
    case Advance(t) => AdvanceMove(s.mem, s.tasks[t], t)
    case _ => GuardMove(s.mem, s.tasks[a.t], a)
  }

  /** Calls on the guard that make no more than one atomic access before their next step. */
  ghost function GuardMove(m: Memory, pc: Pc, a: Action): Move
    requires pc.Held? || pc.Broadcasting?
  {
    match a
    case MarkBroadcasting(_) => Move(Broadcasting(pc.n), m)
    case Commit(_) => Move(Committed(pc.n), m.(pending := Decrement(m.pending)))
    case Drop(_) =>
      if pc.Broadcasting? then Move(Abandoned(pc.n), m)
      else Move(RecycleLock(pc.n), m.(pending := Decrement(m.pending)))
    case _ => Move(RecycleLock(pc.n), m.(pending := Decrement(m.pending)))
  }

  ghost function AdvanceMove(m: Memory, pc: Pc, t: TaskId): Move
    requires !Resting(pc)
  {
    if pc.Reserving? then ReserveMove(m, pc.reserveAt, t)
    else if pc.Recycling? then RecycleMove(m, pc.n, pc.recycleAt)
    else if pc.Collapsing? then CollapseMove(m, pc.n, pc.collapseAt)
    else if pc.Syncing? then SyncMove(m, pc.chain, pc.syncAt)
    else if pc.Rewinding? then RewindMove(m, pc.chain, pc.rewindAt)
    else UnlockedMove(m, pc, t)
  }

  /** The accesses made without the gap lock, and taking it. */
  ghost function UnlockedMove(m: Memory, pc: Pc, t: TaskId): Move
    requires !Locked(pc) && !Resting(pc)
  {
    match pc
    case ReserveStart => Move(ReserveCheck, m.(pending := m.pending + 1))
    case ReserveCheck => Move(if m.gapCount > 0 then ReserveLock else ReserveFetch, m)
    case ReserveFetch =>
      Move(Held(m.current),
           m.(current := WrapInc(m.current), owner := m.owner[m.current := t],
              exhausted := m.exhausted || m.current == U64_MAX))
    case ReserveLock => Move(Reserving(First), m)
    case RecycleLock(n) => Move(Recycling(n, RecycleAt.Floor), m)
    case SyncLock(chain) => Move(Syncing(chain, Retain), m)
    case RewindLock(chain) => Move(Rewinding(chain, RewindAt.Load), m)
  }

  ghost function ReserveMove(m: Memory, at: ReserveAt, t: TaskId): Move {
    match at
    case First =>
      if m.gaps == {} then Move(Reserving(Missed), m)
      else
        var n := Least(m.gaps);
        Move(Reserving(ReserveAt.Count(n)), m.(gaps := m.gaps - {n}, owner := m.owner[n := t]))
    case Count(n) => Move(Reserving(ReserveAt.Unlock(n)), m.(gapCount := WrapDec(m.gapCount)))
    case Unlock(n) => Move(Held(n), m)
    case Missed => Move(ReserveFetch, m)
  }

  ghost function RecycleMove(m: Memory, n: nat, at: RecycleAt): Move {
    match at
    case Floor =>
      if n < m.synced then Move(Recycling(n, RecycleAt.Unlock), m.(owner := m.owner - {n}))
      else Move(Recycling(n, RecycleAt.Cas), m)
    case Cas =>
      if n < U64_MAX && m.current == n + 1 then
        Move(Collapsing(n, CollapseAt.Top), m.(current := n, owner := m.owner - {n}))
      else Move(Recycling(n, RecycleAt.Top), m)
    case Top => Move(Recycling(n, Insert(m.current)), m)
    case Insert(seen) =>
      if m.synced <= n < seen && n !in m.gaps then
        Move(Recycling(n, RecycleAt.Count), m.(gaps := m.gaps + {n}, owner := m.owner - {n}))
      else Move(Recycling(n, RecycleAt.Unlock), m.(owner := m.owner - {n}))
    case Count => Move(Recycling(n, RecycleAt.Unlock), m.(gapCount := WrapInc(m.gapCount)))
    case Unlock => Move(Released(n), m)
  }

  /** The loop that lowers the counter over gaps, after a release that lowered it. */
  ghost function CollapseMove(m: Memory, n: nat, at: CollapseAt): Move {
    match at
    case Top =>
      if m.current == 0 then Move(Recycling(n, RecycleAt.Unlock), m)
      else Move(Collapsing(n, CollapseAt.Floor(m.current - 1)), m)
    case Floor(previous) =>
      if previous < m.synced || previous !in m.gaps then Move(Recycling(n, RecycleAt.Unlock), m)
      else Move(Collapsing(n, CollapseAt.Cas(previous)), m.(gaps := m.gaps - {previous}))
    case Cas(previous) =>
      if m.current == previous + 1 then Move(Collapsing(n, CollapseAt.Count), m.(current := previous))
      else Move(Recycling(n, RecycleAt.Unlock), m.(gaps := m.gaps + {previous}))
    case Count => Move(Collapsing(n, CollapseAt.Top), m.(gapCount := WrapDec(m.gapCount)))
  }

  ghost function SyncMove(m: Memory, chain: u64, at: SyncAt): Move {
    match at
    case Retain => Move(Syncing(chain, SyncAt.Count), m.(gaps := set n | n in m.gaps && chain <= n))
    case Count => Move(Syncing(chain, SyncAt.Floor), m.(gapCount := |m.gaps| % U64_LIMIT))
    case Floor => Move(Syncing(chain, SyncAt.Load), m.(synced := Max(m.synced, chain)))
    case Load =>
      Move(Syncing(chain, if chain <= m.current then SyncAt.Unlock else SyncAt.Cas(m.current)), m)
    case Cas(seen) =>
      if m.current == seen then Move(Syncing(chain, SyncAt.Unlock), m.(current := chain))
      else Move(Syncing(chain, SyncAt.Load), m)
    case Unlock => Move(SyncDone, m)
  }

  ghost function RewindMove(m: Memory, chain: u64, at: RewindAt): Move {
    match at
    case Load =>
      Move(Rewinding(chain, if m.current <= chain then RewindAt.Unlock else RewindAt.Cas(m.current)), m)
    case Cas(seen) =>
      if m.current != seen then Move(Rewinding(chain, RewindAt.Unlock), m)
      else
        Move(Rewinding(chain, Clear),
             m.(current := chain, owner := map n | n in m.owner && n < chain :: m.owner[n], rewound := true))
    case Clear => Move(Rewinding(chain, RewindAt.Count), m.(gaps := {}))
    case Count => Move(Rewinding(chain, RewindAt.Floor), m.(gapCount := 0))
    case Floor => Move(Rewinding(chain, RewindAt.Unlock), m.(synced := chain))
    case Unlock => Move(RewindDone, m)
  }

  /** A run from `s`: every action is enabled when it is taken. */
  ghost predicate IsRun(s: State, actions: seq<Action>)
    decreases |actions|
  {
    actions == [] || (Enabled(s, actions[0]) && IsRun(Step(s, actions[0]), actions[1..]))
  }

  ghost function After(s: State, actions: seq<Action>): State
    requires IsRun(s, actions)
    decreases |actions|
  {
    if actions == [] then s else After(Step(s, actions[0]), actions[1..])
  }
}
