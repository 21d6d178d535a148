/**
 * Whether a nonce the ledger calls unresolved is outstanding, which is what the stall replacement
 * takes it to prove before it cancels at that nonce.
 */
module OwnershipStranded {
  import Nonce
  import opened Ledger
  import opened Ownership
  import opened OwnershipSafety

  ghost predicate Unresolved(s: State, n: nat) {
    n in s.ledger && IsUnresolved(s.ledger[n])
  }

  /** Some task has returned the nonce and is about to tell the ledger. */
  ghost predicate AwaitsMark(s: State, n: nat) {
    exists t | t in s.tasks :: s.tasks[t] == Marking(n)
  }

  /** A stage at which the task itself has recorded nothing, or will not correct what it recorded. */
  predicate IsSilent(stage: Stage) {
    stage.Reserved? || stage == Ending(Releasing(false))
  }

  ghost predicate Tracked(s: State) {
    && (forall n | Unresolved(s, n) && n !in s.owner :: AwaitsMark(s, n))
    && (forall t | t in s.tasks && s.tasks[t].Owning? && IsSilent(s.tasks[t].stage) ::
          Unresolved(s, s.tasks[t].n) ==> AwaitsMark(s, s.tasks[t].n))
  }

  /**
   * No signed context is abandoned without a mark, and what is reported of a nonce from outside is
   * that it was mined, or concerns a nonce whose owner has recorded it.
   */
  ghost predicate IsTidy(s: State, a: Action) {
    match a
    case Observe(n, status) =>
      status == Mined || (n in s.owner && s.owner[n] in s.tasks && !SilentTask(s.tasks[s.owner[n]]))
    case Forget(_) => true
    case Turn(t, m) =>
      !(m.Abandon? && !m.mark && t in s.tasks && s.tasks[t].Owning? && s.tasks[t].stage.Holding?)
  }

  predicate SilentTask(task: Task) {
    task.Owning? && IsSilent(task.stage)
  }

  lemma AwaitsAfter(s: State, s': State, t: TaskId, n: nat)
    requires AwaitsMark(s, n) && t in s.tasks ==> s.tasks[t] != Marking(n)
    requires forall u | u in s.tasks && u != t :: u in s'.tasks && s'.tasks[u] == s.tasks[u]
    ensures AwaitsMark(s, n) ==> AwaitsMark(s', n)
  {
    if AwaitsMark(s, n) {
      var u :| u in s.tasks && s.tasks[u] == Marking(n);
      assert u != t;
      assert s'.tasks[u] == Marking(n);
    }
  }

  lemma MarkStaysTracked(s: State, t: TaskId)
    requires Tracked(s) && EnabledMove(s, t, MarkReleased)
    ensures Tracked(Next(s, Turn(t, MarkReleased)))
  {
    var s' := Next(s, Turn(t, MarkReleased));
    var n := s.tasks[t].n;
    assert !Unresolved(s', n);
    forall m | m != n && Unresolved(s, m) ensures AwaitsMark(s, m) ==> AwaitsMark(s', m) {
      AwaitsAfter(s, s', t, m);
    }
    assert forall m | Unresolved(s', m) :: m != n && Unresolved(s, m);
  }

  lemma ReturnStaysTracked(s: State, t: TaskId)
    requires Inv(s) && Tracked(s) && EnabledMove(s, t, Return)
    ensures Tracked(Next(s, Turn(t, Return)))
  {
    var s' := Next(s, Turn(t, Return));
    var n := s.tasks[t].n;
    forall m | Unresolved(s, m) ensures AwaitsMark(s, m) ==> AwaitsMark(s', m) {
      AwaitsAfter(s, s', t, m);
    }
    if s.tasks[t].stage.end.mark {
      assert s'.tasks[t] == Marking(n);
    } else {
      assert IsSilent(s.tasks[t].stage);
    }
  }

  lemma ReserveStaysTracked(s: State, t: TaskId, m: Move)
    requires Tracked(s) && EnabledMove(s, t, m) && m.Reserve?
    ensures Tracked(Next(s, Turn(t, m)))
  {
    var s' := Next(s, Turn(t, m));
    forall k | Unresolved(s, k) ensures AwaitsMark(s, k) ==> AwaitsMark(s', k) {
      AwaitsAfter(s, s', t, k);
    }
  }

  lemma KeepingStaysTracked(s: State, t: TaskId, m: Move)
    requires Inv(s) && Tracked(s) && EnabledMove(s, t, m) && Keeps(m) && IsTidy(s, Turn(t, m))
    ensures Tracked(Next(s, Turn(t, m)))
  {
    var s' := Next(s, Turn(t, m));
    var n, stage := s.tasks[t].n, s.tasks[t].stage;
    assert TaskOk(s, t, s.tasks[t]);
    OwnerIsAlone(s, t);
    forall k | Unresolved(s, k) ensures AwaitsMark(s, k) ==> AwaitsMark(s', k) {
      AwaitsAfter(s, s', t, k);
    }
    assert forall k | k != n :: Unresolved(s', k) <==> Unresolved(s, k);
    SilenceIsInherited(stage, m);
    assert IsSilent(NextStage(stage, m)) ==> (Unresolved(s', n) ==> Unresolved(s, n));
  }

  /** Short of abandoning a signed context unmarked, only a task that recorded nothing falls silent. */
  lemma SilenceIsInherited(stage: Stage, m: Move)
    requires AllowsMove(stage, m) && Keeps(m) && !(m.Abandon? && !m.mark && stage.Holding?)
    ensures IsSilent(NextStage(stage, m)) ==> IsSilent(stage) && (m.SignFails? || m.Abandon?)
  {
  }

  lemma LedgerStaysTracked(s: State, a: Action)
    requires Inv(s) && Tracked(s) && Enabled(s, a) && IsTidy(s, a) && !a.Turn?
    ensures Tracked(Next(s, a))
  {
    var s' := Next(s, a);
    forall n ensures AwaitsMark(s, n) ==> AwaitsMark(s', n) {
    }
    forall n | Unresolved(s', n) && n !in s'.owner ensures AwaitsMark(s', n) {
      assert Unresolved(s, n);
    }
    forall t | t in s'.tasks && s'.tasks[t].Owning? && IsSilent(s'.tasks[t].stage) && Unresolved(s', s'.tasks[t].n)
      ensures AwaitsMark(s', s'.tasks[t].n)
    {
      assert TaskOk(s, t, s.tasks[t]);
      assert Unresolved(s, s.tasks[t].n);
    }
  }

  lemma StepStaysTracked(s: State, a: Action)
    requires Inv(s) && Tracked(s) && Enabled(s, a) && IsTidy(s, a)
    ensures Tracked(Next(s, a))
  {
    if !a.Turn? {
      LedgerStaysTracked(s, a);
    } else if a.move.Reserve? {
      ReserveStaysTracked(s, a.t, a.move);
    } else if a.move.MarkReleased? {
      MarkStaysTracked(s, a.t);
    } else if a.move.Return? {
      ReturnStaysTracked(s, a.t);
    } else {
      KeepingStaysTracked(s, a.t, a.move);
    }
  }

  ghost predicate IsTidyRun(s: State, actions: seq<Action>)
    requires IsRun(s, actions)
    decreases |actions|
  {
    actions != [] ==> IsTidy(s, actions[0]) && IsTidyRun(Next(s, actions[0]), actions[1..])
  }

  lemma {:induction false} RunStaysTracked(s: State, actions: seq<Action>)
    requires Inv(s) && Tracked(s) && IsRun(s, actions) && IsTidyRun(s, actions)
    ensures Tracked(After(s, actions))
    decreases |actions|
  {
    if actions != [] {
      StepKeepsInv(s, actions[0]);
      StepStaysTracked(s, actions[0]);
      RunStaysTracked(Next(s, actions[0]), actions[1..]);
    }
  }

  /**
   * In a tidy run an unresolved nonce is outstanding, so nobody else can be handed it while it is
   * cancelled; the only exception is a nonce that has been returned and whose mark is on its way.
   */
  lemma UnresolvedIsOutstanding(actions: seq<Action>, n: nat)
    requires IsRun(Init(), actions) && IsTidyRun(Init(), actions)
    requires var s := After(Init(), actions); Unresolved(s, n) && !AwaitsMark(s, n)
    ensures n in After(Init(), actions).owner
  {
    RunStaysTracked(Init(), actions);
  }

  // ---------- Exactly when ----------

  /**
   * The strays of a run: nonces that were returned while their record was unresolved, or reported
   * from outside while nobody owned them, and since then neither reserved, marked released, mined
   * nor forgotten.
   */
  ghost function StrayStep(s: State, a: Action, strays: set<nat>): set<nat>
    requires Enabled(s, a)
  {
    match a
    case Observe(n, status) => if status == Mined then strays - {n} else if n in s.owner then strays else strays + {n}
    case Forget(nonces) => strays - nonces
    case Turn(t, m) =>
      if m.Reserve? then strays - {m.nonce}
      else if m.MarkReleased? then strays - {s.tasks[t].n}
      else if m.Return? && Unresolved(s, s.tasks[t].n) then strays + {s.tasks[t].n}
      else strays
  }

  ghost function Strays(s: State, actions: seq<Action>, strays: set<nat>): set<nat>
    requires IsRun(s, actions)
    decreases |actions|
  {
    if actions == [] then strays
    else Strays(Next(s, actions[0]), actions[1..], StrayStep(s, actions[0], strays))
  }

  ghost predicate AreStrays(s: State, strays: set<nat>) {
    forall n :: n in strays <==> Unresolved(s, n) && n !in s.owner
  }

  lemma StrayTurn(s: State, t: TaskId, m: Move, strays: set<nat>)
    requires Inv(s) && EnabledMove(s, t, m) && AreStrays(s, strays)
    ensures AreStrays(Next(s, Turn(t, m)), StrayStep(s, Turn(t, m), strays))
  {
    var s' := Next(s, Turn(t, m));
    if m.Reserve? {
    } else if m.MarkReleased? {
      assert !Unresolved(s', s.tasks[t].n);
    } else {
      var n := s.tasks[t].n;
      assert TaskOk(s, t, s.tasks[t]);
      assert forall k | k != n :: Unresolved(s', k) <==> Unresolved(s, k);
    }
  }

  lemma {:induction false} RunStrays(s: State, actions: seq<Action>, strays: set<nat>)
    requires Inv(s) && AreStrays(s, strays) && IsRun(s, actions)
    ensures AreStrays(After(s, actions), Strays(s, actions, strays))
    decreases |actions|
  {
    if actions != [] {
      var a := actions[0];
      StepKeepsInv(s, a);
      if a.Turn? {
        StrayTurn(s, a.t, a.move, strays);
      }
      RunStrays(Next(s, a), actions[1..], StrayStep(s, a, strays));
    }
  }

  /**
   * In every run, a nonce is unresolved and free exactly when it is a stray. So an unresolved nonce
   * that is not one is outstanding, as the stall replacement takes it to be, and one that is can be
   * handed to any new task.
   */
  lemma UnresolvedIsFreeIff(actions: seq<Action>, n: nat, t: TaskId, path: Path)
    requires IsRun(Init(), actions)
    ensures var s := After(Init(), actions);
            && (n in Strays(Init(), actions, {}) <==> Unresolved(s, n) && n !in s.owner)
            && (Unresolved(s, n) && t !in s.tasks ==>
                  (Enabled(s, Turn(t, Reserve(n, path))) <==> n in Strays(Init(), actions, {})))
  {
    RunStrays(Init(), actions, {});
  }

  // ---------- A stray that would be cancelled ----------

  lemma HigherNonceInFlight() returns (run: seq<Action>)
    ensures IsRun(Init(), run)
    ensures After(Init(), run) ==
            State(map[0 := 1, 1 := 2], map[1 := Signed], {}, {},
                  map[1 := Owning(0, Reserved(Preheat)), 2 := Owning(1, Holding(Auto))])
  {
    run := Then([], Turn(1, Reserve(0, Preheat)));
    run := Then(run, Turn(2, Reserve(1, Auto)));
    run := Then(run, Turn(2, SignSucceeds));
  }

  /**
   * Abandoning one signed context makes a stray: the ledger still calls its nonce unresolved, and
   * the tracker, whose counter is past it, hands it out next. A stall replacement at that nonce
   * passes its guards once the record is old enough.
   */
  lemma AbandonedLooksStranded() returns (run: seq<Action>)
    ensures IsRun(Init(), run)
    ensures var s := After(Init(), run); var tracker := Nonce.Allocator(0, s.owner.Keys);
            && Unresolved(s, 0) && !AwaitsMark(s, 0)
            && tracker.IsLeastFree(0) && forall current | tracker.IsTop(current) :: 0 < current
  {
    run := HigherNonceInFlight();
    run := Then(run, Turn(1, SignSucceeds));
    run := Then(run, Turn(1, Abandon(false)));
    run := Then(run, Turn(1, Return));
    var s := After(Init(), run);
    assert 1 in s.owner && 0 !in s.owner;
  }
}
