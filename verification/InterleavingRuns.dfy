/** What whole runs of the nonce tracker promise, for any tasks in any interleaving. */
module InterleavingRuns {
  import opened Words
  import opened Interleaving
  import opened InterleavingSafety
  import Nonce

  lemma {:induction false} RunKeepsInv(s: State, actions: seq<Action>)
    requires Inv(s) && IsRun(s, actions)
    ensures Inv(After(s, actions))
    decreases |actions|
  {
    if actions != [] {
      StepKeepsInv(s, actions[0]);
      RunKeepsInv(Step(s, actions[0]), actions[1..]);
    }
  }

  /** The state after a run from a fresh tracker. */
  ghost predicate Reachable(s: State) {
    exists initialNonce: u64, actions: seq<Action> ::
      IsRun(Init(initialNonce), actions) && s == After(Init(initialNonce), actions)
  }

  lemma ReachableInv(s: State)
    requires Reachable(s)
    ensures Inv(s)
  {
    var initialNonce: u64, actions: seq<Action> :|
      IsRun(Init(initialNonce), actions) && s == After(Init(initialNonce), actions);
    InitInv(initialNonce);
    RunKeepsInv(Init(initialNonce), actions);
  }

  lemma IssuedBySomeone(s: State, a: Action)
    requires Enabled(s, a) && Issued(s, a).Some?
    ensures a.Advance? && (s.tasks[a.t].ReserveFetch? || s.tasks[a.t] == Reserving(First))
  {
  }

  /** No interleaving hands out a nonce that is still outstanding. */
  lemma NeverIssuedTwice(s: State, a: Action)
    requires Reachable(s) && !s.mem.exhausted && Enabled(s, a) && Issued(s, a).Some?
    ensures Issued(s, a).value !in s.mem.owner
    ensures forall t | t in s.tasks :: LiveNonce(s.tasks[t]) != Issued(s, a)
    ensures Step(s, a).mem.owner == s.mem.owner[Issued(s, a).value := a.t]
  {
    ReachableInv(s);
    IssuedBySomeone(s, a);
    var n := Issued(s, a).value;
    if s.tasks[a.t].ReserveFetch? {
      assert n == s.mem.current;
    } else {
      assert s.lock == Some(a.t);
      assert n in s.mem.gaps;
    }
    forall t | t in s.tasks ensures LiveNonce(s.tasks[t]) != Some(n) {
      assert Owns(s.mem, t, LiveNonce(s.tasks[t]));
    }
  }

  /** No two live guards ever share a nonce. */
  lemma LiveGuardsAreDistinct(s: State, t: TaskId, u: TaskId)
    requires Reachable(s) && !s.mem.exhausted
    requires t in s.tasks && u in s.tasks && t != u
    requires LiveNonce(s.tasks[t]).Some?
    ensures LiveNonce(s.tasks[t]) != LiveNonce(s.tasks[u])
    ensures !s.mem.rewound ==> LiveNonce(s.tasks[t]) != SettledNonce(s.tasks[u])
  {
    ReachableInv(s);
    assert Owns(s.mem, t, LiveNonce(s.tasks[t]));
    assert Owns(s.mem, u, LiveNonce(s.tasks[u]));
    assert !s.mem.rewound ==> Owns(s.mem, u, SettledNonce(s.tasks[u]));
  }

  /**
   * Whenever the gap lock is free the memory is the stored form of an abstract allocator whose
   * outstanding nonces are those of the guards, so the sequential results hold between operations
   * of any concurrent run.
   */
  lemma FreeLockIsCanonical(s: State)
    requires Reachable(s) && !s.mem.exhausted && s.lock.None?
    ensures Nonce.Canonical(Nonce.Allocator(s.mem.synced, s.mem.owner.Keys), s.mem.current, s.mem.gaps, s.mem.gapCount)
    ensures forall t | t in s.tasks && LiveNonce(s.tasks[t]).Some? :: LiveNonce(s.tasks[t]).value in s.mem.owner
    ensures forall n | n in s.mem.owner :: s.mem.owner[n] in s.tasks && Holds(s.tasks[s.mem.owner[n]], n)
  {
    ReachableInv(s);
    var alloc := Nonce.Allocator(s.mem.synced, s.mem.owner.Keys);
    assert alloc.NoneAtOrAbove(s.mem.current);
    Nonce.TopIsTight(alloc, s.mem.current);
    forall t | t in s.tasks && LiveNonce(s.tasks[t]).Some? ensures LiveNonce(s.tasks[t]).value in s.mem.owner {
      assert Owns(s.mem, t, LiveNonce(s.tasks[t]));
    }
  }

  /** `pending_count` is exactly the tasks that reserve, hold, broadcast, or were dropped while broadcasting. */
  lemma PendingCountIsExact(s: State)
    requires Reachable(s)
    ensures s.mem.pending == |PendingTasks(s.tasks)|
    ensures (forall t | t in s.tasks && Pends(s.tasks[t]) :: Resting(s.tasks[t])) ==>
              s.mem.pending == |set t | t in s.tasks && (s.tasks[t].Held? || s.tasks[t].Broadcasting? || s.tasks[t].Abandoned?)|
  {
    ReachableInv(s);
    if forall t | t in s.tasks && Pends(s.tasks[t]) :: Resting(s.tasks[t]) {
      assert PendingTasks(s.tasks) ==
             set t | t in s.tasks && (s.tasks[t].Held? || s.tasks[t].Broadcasting? || s.tasks[t].Abandoned?);
    }
  }

  // ---------- Guards over a whole run ----------

  lemma SettledStaysSettled(s: State, a: Action, t: TaskId)
    requires Enabled(s, a) && t in s.tasks && SettledNonce(s.tasks[t]).Some?
    ensures t in Step(s, a).tasks && Step(s, a).tasks[t] == s.tasks[t]
  {
  }

  lemma {:induction false} SettledForever(s: State, actions: seq<Action>, t: TaskId)
    requires IsRun(s, actions) && t in s.tasks && SettledNonce(s.tasks[t]).Some?
    ensures t in After(s, actions).tasks && After(s, actions).tasks[t] == s.tasks[t]
    decreases |actions|
  {
    if actions != [] {
      SettledStaysSettled(s, actions[0], t);
      SettledForever(Step(s, actions[0]), actions[1..], t);
    }
  }

  lemma {:induction false} ReachableExtends(s: State, actions: seq<Action>)
    requires Reachable(s) && IsRun(s, actions)
    ensures Reachable(After(s, actions))
    decreases |actions|
  {
    if actions != [] {
      var initialNonce: u64, past: seq<Action> :|
        IsRun(Init(initialNonce), past) && s == After(Init(initialNonce), past);
      AppendAction(Init(initialNonce), past, actions[0]);
      assert Reachable(Step(s, actions[0]));
      ReachableExtends(Step(s, actions[0]), actions[1..]);
    }
  }

  lemma {:induction false} AppendAction(s: State, actions: seq<Action>, a: Action)
    requires IsRun(s, actions) && Enabled(After(s, actions), a)
    ensures IsRun(s, actions + [a]) && After(s, actions + [a]) == Step(After(s, actions), a)
    decreases |actions|
  {
    if actions == [] {
      assert [a][1..] == [];
    } else {
      assert (actions + [a])[1..] == actions[1..] + [a];
      AppendAction(Step(s, actions[0]), actions[1..], a);
    }
  }

  /**
   * A nonce whose guard committed, or was dropped while broadcasting, is never handed out again:
   * not by any later step of any run, as long as no rewind succeeds and the counter does not wrap.
   */
  lemma SettledNonceNeverReissued(s: State, actions: seq<Action>, t: TaskId, a: Action)
    requires Reachable(s) && IsRun(s, actions)
    requires t in s.tasks && SettledNonce(s.tasks[t]).Some?
    requires Enabled(After(s, actions), a)
    requires !After(s, actions).mem.rewound && !After(s, actions).mem.exhausted
    ensures Issued(After(s, actions), a) != SettledNonce(s.tasks[t])
  {
    var later := After(s, actions);
    SettledForever(s, actions, t);
    ReachableExtends(s, actions);
    ReachableInv(later);
    assert Owns(later.mem, t, SettledNonce(later.tasks[t]));
    if Issued(later, a).Some? {
      NeverIssuedTwice(later, a);
    }
  }

  /** The calls that reach the tracker's `confirm` or `release`. */
  ghost predicate SettlesGuard(s: State, a: Action, t: TaskId)
    requires Enabled(s, a)
  {
    a.t == t && (a.Commit? || a.Release? || a.ReleaseRejected? || (a.Drop? && s.tasks[t].Held?))
  }

  ghost function SettleCalls(s: State, actions: seq<Action>, t: TaskId): nat
    requires IsRun(s, actions)
    decreases |actions|
  {
    if actions == [] then 0
    else (if SettlesGuard(s, actions[0], t) then 1 else 0) + SettleCalls(Step(s, actions[0]), actions[1..], t)
  }

  /** A task whose guard has been settled, or which never had one to settle. */
  predicate Past(pc: Pc) {
    || pc.Committed? || pc.Abandoned? || pc.Released? || pc.RecycleLock? || pc.Recycling? || pc.Collapsing?
  }

  lemma PastStaysPast(s: State, a: Action, t: TaskId)
    requires Enabled(s, a)
    ensures t in s.tasks && Past(s.tasks[t]) ==>
              t in Step(s, a).tasks && Past(Step(s, a).tasks[t]) && !SettlesGuard(s, a, t)
    ensures SettlesGuard(s, a, t) ==> t in Step(s, a).tasks && Past(Step(s, a).tasks[t])
  {
  }

  lemma {:induction false} SettleCallsAreFew(s: State, actions: seq<Action>, t: TaskId)
    requires IsRun(s, actions)
    ensures SettleCalls(s, actions, t) <= if t in s.tasks && Past(s.tasks[t]) then 0 else 1
    decreases |actions|
  {
    if actions != [] {
      PastStaysPast(s, actions[0], t);
      SettleCallsAreFew(Step(s, actions[0]), actions[1..], t);
    }
  }

  /** Each guard reaches `confirm` or `release` at most once in its life. */
  lemma GuardSettlesOnce(initialNonce: u64, actions: seq<Action>, t: TaskId)
    requires IsRun(Init(initialNonce), actions)
    ensures SettleCalls(Init(initialNonce), actions, t) <= 1
  {
    SettleCallsAreFew(Init(initialNonce), actions, t);
  }

  // ---------- How a guard ends ----------

  /** The guard's nonce is on its way back, or back. */
  predicate Returning(pc: Pc, n: nat) {
    (pc.RecycleLock? || pc.Recycling? || pc.Collapsing? || pc.Released?) && pc.n == n
  }

  lemma MoveReturns(m: Memory, pc: Pc, n: nat, t: TaskId)
    requires !Resting(pc) && Returning(pc, n)
    ensures Returning(AdvanceMove(m, pc, t).pc, n)
  {
  }

  lemma {:induction false} ReturningGoesOn(s: State, actions: seq<Action>, t: TaskId, n: nat)
    requires IsRun(s, actions) && t in s.tasks && Returning(s.tasks[t], n)
    ensures t in After(s, actions).tasks && Returning(After(s, actions).tasks[t], n)
    decreases |actions|
  {
    if actions != [] {
      if actions[0] == Advance(t) {
        MoveReturns(s.mem, s.tasks[t], n, t);
      }
      ReturningGoesOn(Step(s, actions[0]), actions[1..], t, n);
    }
  }

  /**
   * A guard that is released, or dropped before its broadcast, comes to rest only once its nonce is
   * back and nobody owns any nonce on its behalf.
   */
  lemma GuardReturns(s: State, a: Action, actions: seq<Action>)
    requires Reachable(s) && Enabled(s, a)
    requires a.Release? || a.ReleaseRejected? || (a.Drop? && s.tasks[a.t].Held?)
    requires IsRun(Step(s, a), actions) && !After(Step(s, a), actions).mem.exhausted
    ensures a.t in After(Step(s, a), actions).tasks
    ensures var later := After(Step(s, a), actions);
            Resting(later.tasks[a.t]) ==>
              && later.tasks[a.t] == Released(s.tasks[a.t].n)
              && forall n | n in later.mem.owner :: later.mem.owner[n] != a.t
  {
    var s' := Step(s, a);
    ReachableInv(s);
    StepKeepsInv(s, a);
    RunKeepsInv(s', actions);
    ReturningGoesOn(s', actions, a.t, s.tasks[a.t].n);
    ReturnedOwnsNothing(After(s', actions), a.t, s.tasks[a.t].n);
  }

  lemma ReturnedOwnsNothing(s: State, t: TaskId, n: nat)
    requires Inv(s) && !s.mem.exhausted && t in s.tasks && Returning(s.tasks[t], n)
    ensures Resting(s.tasks[t]) ==> s.tasks[t] == Released(n) && forall m | m in s.mem.owner :: s.mem.owner[m] != t
  {
  }

  /**
   * A guard that commits, or is dropped while broadcasting, keeps its nonce through the rest of the
   * run, until a rewind succeeds.
   */
  lemma GuardKeeps(s: State, a: Action, actions: seq<Action>)
    requires Reachable(s) && Enabled(s, a)
    requires a.Commit? || (a.Drop? && s.tasks[a.t].Broadcasting?)
    requires IsRun(Step(s, a), actions) && !After(Step(s, a), actions).mem.exhausted
    requires !After(Step(s, a), actions).mem.rewound
    ensures var n, later := s.tasks[a.t].n, After(Step(s, a), actions);
            n in later.mem.owner && later.mem.owner[n] == a.t
  {
    var s' := Step(s, a);
    ReachableInv(s);
    StepKeepsInv(s, a);
    RunKeepsInv(s', actions);
    SettledForever(s', actions, a.t);
    var later := After(s', actions);
    assert Owns(later.mem, a.t, SettledNonce(later.tasks[a.t]));
  }

  /** While any task has an access to make, some task can make one: the lock never deadlocks. */
  lemma NoDeadlock(s: State, t: TaskId)
    requires Reachable(s) && t in s.tasks && !Resting(s.tasks[t])
    requires forall u | u in s.tasks && RewindLands(s.mem, s.tasks[u]) :: RewindJustified(s, s.tasks[u].chain)
    ensures exists u :: u in s.tasks && Enabled(s, Advance(u))
  {
    ReachableInv(s);
    if s.lock.Some? {
      assert Enabled(s, Advance(s.lock.value));
    } else {
      assert Enabled(s, Advance(t));
    }
  }
}
