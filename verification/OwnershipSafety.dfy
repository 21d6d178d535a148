/** What every run of the send paths keeps, for any answers of the endpoints in any order. */
module OwnershipSafety {
  import opened Ledger
  import opened Ownership

  ghost predicate IsReleased(s: State, n: nat) {
    n in s.ledger && s.ledger[n] == Released
  }

  /** The ledger calls the nonce released, and no late mark explains it. */
  ghost predicate Unexplained(s: State, n: nat) {
    IsReleased(s, n) && n !in s.late
  }

  /** What a stage says of its nonce: `live` if an endpoint may hold it, `bad` if unexplained. */
  ghost predicate StageOk(stage: Stage, live: bool, bad: bool) {
    match stage
    case Reserved(_) => !live
    case Holding(_) => !live && !bad
    case Ready => !live && !bad
    case Sending(mayHold, pending, definitive) =>
      !bad && (live <==> mayHold != {}) && (definitive ==> mayHold <= pending)
    case Ending(end) => if end.Releasing? then !live else !bad
  }

  ghost predicate TaskOk(s: State, t: TaskId, task: Task) {
    task.Owning? ==>
      task.n in s.owner && s.owner[task.n] == t && StageOk(task.stage, task.n in s.holds, Unexplained(s, task.n))
  }

  ghost predicate Owned(s: State, n: nat)
    requires n in s.owner
  {
    s.owner[n] in s.tasks && s.tasks[s.owner[n]].Owning? && s.tasks[s.owner[n]].n == n
  }

  ghost predicate Inv(s: State) {
    && (forall t | t in s.tasks :: TaskOk(s, t, s.tasks[t]))
    && (forall n | n in s.owner :: Owned(s, n))
    && s.holds <= s.owner.Keys
    && (forall n | n in s.late && n in s.ledger :: s.ledger[n] == Released)
  }

  /** A step of `t` on `n` leaves every other nonce as it is. */
  ghost predicate SameElsewhere(s: State, s': State, n: nat) {
    && (forall m | m != n :: m in s.owner <==> m in s'.owner)
    && (forall m | m != n && m in s.owner :: s.owner[m] == s'.owner[m])
    && (forall m | m != n :: m in s.holds <==> m in s'.holds)
    && (forall m | m != n :: IsReleased(s, m) <==> IsReleased(s', m))
    && (forall m | m != n :: m in s.ledger <==> m in s'.ledger)
    && (forall m | m != n :: m in s.late <==> m in s'.late)
  }

  lemma OthersStayOk(s: State, s': State, t: TaskId, n: nat)
    requires Inv(s) && SameElsewhere(s, s', n)
    requires forall u | u in s.tasks && u != t :: s.tasks[u].Owning? ==> s.tasks[u].n != n
    ensures forall u | u in s.tasks && u != t :: TaskOk(s', u, s.tasks[u])
  {
    forall u | u in s.tasks && u != t ensures TaskOk(s', u, s.tasks[u]) {
      assert TaskOk(s, u, s.tasks[u]);
      assert s.tasks[u].Owning? ==> (Unexplained(s, s.tasks[u].n) <==> Unexplained(s', s.tasks[u].n));
    }
  }

  lemma OwnerIsAlone(s: State, t: TaskId)
    requires Inv(s) && t in s.tasks && s.tasks[t].Owning?
    ensures forall u | u in s.tasks && u != t :: s.tasks[u].Owning? ==> s.tasks[u].n != s.tasks[t].n
  {
    assert TaskOk(s, t, s.tasks[t]);
    forall u | u in s.tasks && u != t && s.tasks[u].Owning? ensures s.tasks[u].n != s.tasks[t].n {
      assert TaskOk(s, u, s.tasks[u]);
    }
  }

  /** A task that keeps its nonce keeps the invariant if its own new stage is right. */
  lemma KeepingKeepsInv(s: State, s': State, t: TaskId, stage: Stage)
    requires Inv(s) && t in s.tasks && s.tasks[t].Owning? && SameElsewhere(s, s', s.tasks[t].n)
    requires s'.tasks == s.tasks[t := Owning(s.tasks[t].n, stage)] && s'.owner == s.owner
    requires StageOk(stage, s.tasks[t].n in s'.holds, Unexplained(s', s.tasks[t].n))
    requires var n := s.tasks[t].n; n in s'.late && n in s'.ledger ==> s'.ledger[n] == Released
    ensures Inv(s')
  {
    var n := s.tasks[t].n;
    assert TaskOk(s, t, s.tasks[t]);
    OwnerIsAlone(s, t);
    OthersStayOk(s, s', t, n);
    forall u | u in s'.tasks ensures TaskOk(s', u, s'.tasks[u]) {
    }
    forall m | m in s'.owner ensures Owned(s', m) {
      assert Owned(s, m);
    }
    forall m | m in s'.late && m in s'.ledger ensures s'.ledger[m] == Released {
      if m != n {
        assert IsReleased(s, m) && IsReleased(s', m);
      }
    }
  }

  lemma EffectIsLocal(s: State, n: nat, stage: Stage, m: Move, t: TaskId, task: Task)
    ensures SameElsewhere(s, At(Effect(s, n, stage, m), t, task), n)
    ensures Effect(s, n, stage, m).owner == s.owner && Effect(s, n, stage, m).tasks == s.tasks
  {
  }

  /** The bookkeeping of the ledger: every record explains what it says. */
  lemma EffectExplains(s: State, n: nat, stage: Stage, m: Move)
    requires n in s.late && n in s.ledger ==> s.ledger[n] == Released
    ensures var s' := Effect(s, n, stage, m);
            && (n in s'.late && n in s'.ledger ==> s'.ledger[n] == Released)
            && (Unexplained(s', n) ==> Unexplained(s, n))
            && (m.SignSucceeds? || m.Confirm? || (m.Enter? && stage == Holding(Auto)) ==> !Unexplained(s', n))
  {
  }

  lemma EffectHolds(s: State, n: nat, stage: Stage, m: Move)
    ensures n in Effect(s, n, stage, m).holds <==> n in s.holds || (m.Dispatch? && m.mayHold != {})
  {
  }

  predicate Keeps(m: Move) {
    !m.Reserve? && !m.MarkReleased? && !m.Return?
  }

  lemma SigningIsRight(stage: Stage, m: Move, live: bool, bad: bool, live': bool, bad': bool)
    requires StageOk(stage, live, bad) && (live' <==> live) && (bad' ==> bad)
    requires stage.Reserved? && (m.SignFails? || m.SignSucceeds? || m.Abandon?) && (m.SignSucceeds? ==> !bad')
    ensures StageOk(NextStage(stage, m), live', bad')
  {
  }

  lemma EnteringIsRight(stage: Stage, m: Move, live: bool, bad: bool, live': bool, bad': bool)
    requires StageOk(stage, live, bad) && (bad' ==> bad)
    requires (stage.Holding? && (m.Enter? || m.Abandon?)) || (stage.Ready? && (m.NoPermit? || m.Dispatch?))
    requires live' <==> live || (m.Dispatch? && m.mayHold != {})
    requires m.Dispatch? ==> m.mayHold <= m.endpoints
    ensures StageOk(NextStage(stage, m), live', bad')
  {
  }

  /**
   * Answers and their sum. When every endpoint has answered and each answer was definitive, no
   * endpoint is left that may hold the bytes.
   */
  lemma SettlingIsRight(stage: Stage, m: Move, live: bool, bad: bool, live': bool, bad': bool)
    requires StageOk(stage, live, bad) && (live' <==> live) && (bad' ==> bad)
    requires (stage.Sending? && (m.Answer? || m.Conclude?)) || (stage == Ending(AcceptedBy) && m.Confirm?)
    requires m.Answer? ==> m.e in stage.pending && (m.reaction == Definitive ==> m.e !in stage.mayHold)
    requires m.Conclude? ==> stage.pending == {}
    ensures StageOk(NextStage(stage, m), live', bad')
  {
  }

  lemma KeepingMoveKeepsInv(s: State, t: TaskId, m: Move)
    requires Inv(s) && EnabledMove(s, t, m) && Keeps(m)
    ensures Inv(Next(s, Turn(t, m)))
  {
    var n, stage := s.tasks[t].n, s.tasks[t].stage;
    var stage' := NextStage(stage, m);
    var s' := Next(s, Turn(t, m));
    assert TaskOk(s, t, s.tasks[t]);
    EffectIsLocal(s, n, stage, m, t, Owning(n, stage'));
    EffectExplains(s, n, stage, m);
    EffectHolds(s, n, stage, m);
    var live, bad := n in s.holds, Unexplained(s, n);
    var live', bad' := n in s'.holds, Unexplained(s', n);
    assert bad' <==> Unexplained(Effect(s, n, stage, m), n);
    if stage.Reserved? {
      SigningIsRight(stage, m, live, bad, live', bad');
    } else if stage.Holding? || stage.Ready? {
      EnteringIsRight(stage, m, live, bad, live', bad');
    } else {
      SettlingIsRight(stage, m, live, bad, live', bad');
    }
    KeepingKeepsInv(s, s', t, stage');
  }

  lemma ReserveKeepsInv(s: State, t: TaskId, m: Move)
    requires Inv(s) && EnabledMove(s, t, m) && m.Reserve?
    ensures Inv(Next(s, Turn(t, m)))
  {
    var n := m.nonce;
    var s' := Next(s, Turn(t, m));
    forall u | u in s.tasks && s.tasks[u].Owning? ensures s.tasks[u].n != n {
      assert TaskOk(s, u, s.tasks[u]);
    }
    OthersStayOk(s, s', t, n);
    assert n !in s.holds;
    forall u | u in s'.tasks ensures TaskOk(s', u, s'.tasks[u]) {
    }
    forall k | k in s'.owner ensures Owned(s', k) {
      assert k != n ==> Owned(s, k);
    }
  }

  lemma ReturnKeepsInv(s: State, t: TaskId, m: Move)
    requires Inv(s) && EnabledMove(s, t, m) && m.Return?
    ensures Inv(Next(s, Turn(t, m)))
  {
    var n := s.tasks[t].n;
    var s' := Next(s, Turn(t, m));
    assert TaskOk(s, t, s.tasks[t]);
    OwnerIsAlone(s, t);
    OthersStayOk(s, s', t, n);
    assert n !in s.holds;
    forall u | u in s'.tasks ensures TaskOk(s', u, s'.tasks[u]) {
    }
    forall k | k in s'.owner ensures Owned(s', k) {
      assert Owned(s, k);
    }
  }

  /** A mark reaches the ledger, whoever owns the nonce by then. */
  lemma MarkKeepsInv(s: State, t: TaskId, m: Move)
    requires Inv(s) && EnabledMove(s, t, m) && m.MarkReleased?
    ensures Inv(Next(s, Turn(t, m)))
  {
    var n := s.tasks[t].n;
    var s' := Next(s, Turn(t, m));
    forall u | u in s'.tasks ensures TaskOk(s', u, s'.tasks[u]) {
      if u != t {
        assert TaskOk(s, u, s.tasks[u]);
        LessBadIsOk(s, s', u);
      }
    }
    forall k | k in s'.owner ensures Owned(s', k) {
      assert Owned(s, k);
    }
  }

  /** Explaining more of the ledger never hurts a task. */
  lemma LessBadIsOk(s: State, s': State, u: TaskId)
    requires u in s.tasks && TaskOk(s, u, s.tasks[u]) && s'.owner == s.owner && s'.holds == s.holds
    requires s.tasks[u].Owning? && Unexplained(s', s.tasks[u].n) ==> Unexplained(s, s.tasks[u].n)
    ensures TaskOk(s', u, s.tasks[u])
  {
  }

  lemma LedgerActionKeepsInv(s: State, a: Action)
    requires Inv(s) && Enabled(s, a) && !a.Turn?
    ensures Inv(Next(s, a))
  {
    var s' := Next(s, a);
    forall u | u in s'.tasks ensures TaskOk(s', u, s'.tasks[u]) {
      assert TaskOk(s, u, s.tasks[u]);
      LessBadIsOk(s, s', u);
    }
    forall k | k in s'.owner ensures Owned(s', k) {
      assert Owned(s, k);
    }
  }

  lemma StepKeepsInv(s: State, a: Action)
    requires Inv(s) && Enabled(s, a)
    ensures Inv(Next(s, a))
  {
    if !a.Turn? {
      LedgerActionKeepsInv(s, a);
    } else if a.move.Reserve? {
      ReserveKeepsInv(s, a.t, a.move);
    } else if a.move.MarkReleased? {
      MarkKeepsInv(s, a.t, a.move);
    } else if a.move.Return? {
      ReturnKeepsInv(s, a.t, a.move);
    } else {
      KeepingMoveKeepsInv(s, a.t, a.move);
    }
  }

  lemma {:induction false} RunKeepsInv(s: State, actions: seq<Action>)
    requires Inv(s) && IsRun(s, actions)
    ensures Inv(After(s, actions))
    decreases |actions|
  {
    if actions != [] {
      StepKeepsInv(s, actions[0]);
      RunKeepsInv(Next(s, actions[0]), actions[1..]);
    }
  }

  // ---------- Whole runs ----------

  lemma ReachedInv(actions: seq<Action>)
    requires IsRun(Init(), actions)
    ensures Inv(After(Init(), actions))
  {
    RunKeepsInv(Init(), actions);
  }

  /**
   * In every run, a nonce whose bytes some endpoint may hold is outstanding, and no reservation can
   * return it, whatever the endpoints answered and in whatever order.
   */
  lemma LiveNonceNeverReissued(actions: seq<Action>, t: TaskId, n: nat, path: Path)
    requires IsRun(Init(), actions) && n in After(Init(), actions).holds
    ensures n in After(Init(), actions).owner
    ensures !Enabled(After(Init(), actions), Turn(t, Reserve(n, path)))
  {
    ReachedInv(actions);
  }

  /** A nonce that may be live stays so, and stays outstanding, for the rest of the run. */
  lemma {:induction false} LiveNonceStaysOwned(s: State, actions: seq<Action>, n: nat)
    requires Inv(s) && IsRun(s, actions) && n in s.holds
    ensures var s' := After(s, actions); n in s'.holds && n in s'.owner && s'.owner[n] == s.owner[n]
    decreases |actions|
  {
    if actions != [] {
      var a := actions[0];
      StepKeepsInv(s, a);
      LiveStep(s, a, n);
      LiveNonceStaysOwned(Next(s, a), actions[1..], n);
    }
  }

  lemma LiveStep(s: State, a: Action, n: nat)
    requires Inv(s) && Enabled(s, a) && n in s.holds
    ensures var s' := Next(s, a); n in s'.holds && n in s'.owner && s'.owner[n] == s.owner[n]
  {
    if a.Turn? && a.move.Return? {
      assert TaskOk(s, a.t, s.tasks[a.t]);
    }
  }

  /**
   * The ledger calls a possibly live nonce released exactly when it was marked released late, that
   * is, after another task had reserved it again, and nothing has been recorded for it since.
   */
  lemma LiveNonceIsReleasedIff(actions: seq<Action>, n: nat)
    requires IsRun(Init(), actions)
    requires var s := After(Init(), actions); n in s.holds && n in s.ledger
    ensures var s := After(Init(), actions); s.ledger[n] == Released <==> n in s.late
  {
    ReachedInv(actions);
    var s := After(Init(), actions);
    var t := s.owner[n];
    assert Owned(s, n);
    assert TaskOk(s, t, s.tasks[t]);
  }

  /** No mark in the run comes after its nonce was reserved again. */
  ghost predicate MarksInTime(s: State, actions: seq<Action>)
    requires IsRun(s, actions)
    decreases |actions|
  {
    actions != [] ==>
      && (actions[0].Turn? && actions[0].move.MarkReleased? ==> s.tasks[actions[0].t].n !in s.owner)
      && MarksInTime(Next(s, actions[0]), actions[1..])
  }

  lemma {:induction false} NoneIsLate(s: State, actions: seq<Action>)
    requires IsRun(s, actions) && MarksInTime(s, actions) && s.late == {}
    ensures After(s, actions).late == {}
    decreases |actions|
  {
    if actions != [] {
      NoneIsLate(Next(s, actions[0]), actions[1..]);
    }
  }

  /** If every mark comes in time, the ledger never calls a possibly live nonce released. */
  lemma LiveNonceIsNeverReleased(actions: seq<Action>, n: nat)
    requires IsRun(Init(), actions) && MarksInTime(Init(), actions)
    requires var s := After(Init(), actions); n in s.holds && n in s.ledger
    ensures After(Init(), actions).ledger[n] != Released
  {
    NoneIsLate(Init(), actions);
    LiveNonceIsReleasedIff(actions, n);
  }

  // ---------- The late mark ----------

  lemma {:induction false} RunJoins(s: State, a: seq<Action>, b: seq<Action>)
    requires IsRun(s, a) && IsRun(After(s, a), b)
    ensures IsRun(s, a + b) && After(s, a + b) == After(After(s, a), b)
    decreases |a|
  {
    if a == [] {
      assert a + b == b;
    } else {
      RunJoins(Next(s, a[0]), a[1..], b);
      assert (a + b)[0] == a[0] && (a + b)[1..] == a[1..] + b;
    }
  }

  /** One more step. */
  lemma Then(actions: seq<Action>, a: Action) returns (longer: seq<Action>)
    requires IsRun(Init(), actions) && Enabled(After(Init(), actions), a)
    ensures IsRun(Init(), longer) && After(Init(), longer) == Next(After(Init(), actions), a)
  {
    var s := After(Init(), actions);
    assert [a][1..] == [];
    assert IsRun(s, [a]) && After(s, [a]) == Next(s, a);
    RunJoins(Init(), actions, [a]);
    longer := actions + [a];
  }

  lemma ReadyToSend() returns (run: seq<Action>)
    ensures IsRun(Init(), run)
    ensures After(Init(), run) == State(map[0 := 1], map[0 := Signed], {}, {}, map[1 := Owning(0, Ready)])
  {
    run := Then([], Turn(1, Reserve(0, Auto)));
    run := Then(run, Turn(1, SignSucceeds));
    run := Then(run, Turn(1, Enter));
  }

  lemma RefusedByAll() returns (run: seq<Action>)
    ensures IsRun(Init(), run)
    ensures After(Init(), run) ==
            State(map[0 := 1], map[0 := Signed], {}, {}, map[1 := Owning(0, Sending({}, {}, true))])
  {
    run := ReadyToSend();
    run := Then(run, Turn(1, Dispatch({7}, {})));
    run := Then(run, Turn(1, Answer(7, Definitive)));
    assert {7} - {7} == {};
  }

  /** A task whose only endpoint refuses definitively, up to the moment the tracker has its nonce back. */
  lemma RefusedAndReturned() returns (run: seq<Action>)
    ensures IsRun(Init(), run)
    ensures After(Init(), run) == State(map[], map[0 := Signed], {}, {}, map[1 := Marking(0)])
  {
    run := RefusedByAll();
    run := Then(run, Turn(1, Conclude));
    run := Then(run, Turn(1, Return));
    assert map[0 := 1] - {0} == map[];
  }

  /** Another task takes the nonce, broadcasts it, and only then does the first task's mark arrive. */
  lemma LateMarkHidesLiveNonce() returns (run: seq<Action>)
    ensures IsRun(Init(), run)
    ensures var s := After(Init(), run); 0 in s.holds && 0 in s.ledger && s.ledger[0] == Released
  {
    run := RefusedAndReturned();
    run := Then(run, Turn(2, Reserve(0, Auto)));
    run := Then(run, Turn(2, SignSucceeds));
    run := Then(run, Turn(2, Enter));
    run := Then(run, Turn(2, Dispatch({7}, {7})));
    run := Then(run, Turn(1, MarkReleased));
  }
}
