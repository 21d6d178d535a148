/** What a task may do next, from the moves it has made: above all, when its nonce goes back. */
module OwnershipHistory {
  import opened Ledger
  import opened Ownership
  import opened OwnershipSafety

  /** The moves `t` makes in a run. */
  ghost function MovesOf(actions: seq<Action>, t: TaskId): seq<Move> {
    if actions == [] then []
    else (if actions[0].Turn? && actions[0].t == t then [actions[0].move] else []) + MovesOf(actions[1..], t)
  }

  function Last(h: seq<Move>): Move
    requires h != []
  {
    h[|h| - 1]
  }

  /** There were endpoints to send to, and every answer was a definitive refusal. */
  ghost predicate RefusedByAll(h: seq<Move>) {
    && (exists i | 0 <= i < |h| :: h[i].Dispatch? && h[i].endpoints != {})
    && (forall i | 0 <= i < |h| && h[i].Answer? :: h[i].reaction == Definitive)
  }

  ghost predicate AnsweredBy(h: seq<Move>, e: EndpointId) {
    exists i | 0 <= i < |h| :: h[i].Answer? && h[i].e == e
  }

  /** Every endpoint that was sent to has answered. */
  ghost predicate AllAnswered(h: seq<Move>) {
    forall i, e | 0 <= i < |h| && h[i].Dispatch? && e in h[i].endpoints :: AnsweredBy(h, e)
  }

  ghost predicate GivesBack(h: seq<Move>) {
    h != [] && (Last(h).SignFails? || Last(h).Abandon? || (Last(h).Conclude? && RefusedByAll(h)))
  }

  /** Whether a nonce that goes back after `h` is then marked released: not if nothing was recorded. */
  predicate WillMark(h: seq<Move>)
    requires h != [] && h[0].Reserve?
  {
    Last(h).Conclude? || (Last(h).Abandon? && Last(h).mark) || (Last(h).SignFails? && h[0].path == Auto)
  }

  // ---------- The moves behind a stage ----------

  ghost predicate BehindSending(mayHold: set<EndpointId>, pending: set<EndpointId>, definitive: bool, h: seq<Move>) {
    && |h| >= 4 && h[0].Reserve? && h[1].SignSucceeds? && h[2].Enter? && h[3].Dispatch? && mayHold == h[3].mayHold
    && (forall i | 4 <= i < |h| :: h[i].Answer? && h[i].reaction != Accept)
    && (definitive <==> RefusedByAll(h))
    && (forall e :: e in pending <==> e in h[3].endpoints && !AnsweredBy(h, e))
  }

  ghost predicate BehindEnding(end: End, h: seq<Move>) {
    && |h| >= 2 && h[0].Reserve?
    && (Last(h).Conclude? ==> AllAnswered(h))
    && match end
       case AcceptedBy => Last(h).Answer? && Last(h).reaction == Accept
       case Retained => Last(h).NoPermit? || Last(h).Confirm? || (Last(h).Conclude? && !RefusedByAll(h))
       case Releasing(mark) => GivesBack(h) && (mark <==> WillMark(h))
  }

  ghost predicate BehindStage(stage: Stage, h: seq<Move>) {
    match stage
    case Reserved(path) => |h| == 1 && h[0].Reserve? && h[0].path == path
    case Holding(path) => |h| == 2 && h[0].Reserve? && h[0].path == path && h[1].SignSucceeds?
    case Ready => |h| == 3 && h[0].Reserve? && h[1].SignSucceeds? && h[2].Enter?
    case Sending(mayHold, pending, definitive) => BehindSending(mayHold, pending, definitive, h)
    case Ending(end) => BehindEnding(end, h)
  }

  ghost predicate Behind(task: Task, h: seq<Move>) {
    match task
    case Owning(n, stage) => h != [] && h[0].Reserve? && h[0].nonce == n && BehindStage(stage, h)
    case Marking(n) => h != [] && h[0].Reserve? && h[0].nonce == n && Last(h).Return?
    case Idle => h != [] && h[0].Reserve? && (Last(h).Return? || Last(h).MarkReleased?)
  }

  lemma RefusedSnoc(h: seq<Move>, m: Move)
    ensures RefusedByAll(h + [m]) <==>
            && ((exists i | 0 <= i < |h| :: h[i].Dispatch? && h[i].endpoints != {})
                || (m.Dispatch? && m.endpoints != {}))
            && (forall i | 0 <= i < |h| && h[i].Answer? :: h[i].reaction == Definitive)
            && (m.Answer? ==> m.reaction == Definitive)
  {
    var h' := h + [m];
    assert h'[|h|] == m;
    assert forall i | 0 <= i < |h| :: h'[i] == h[i];
    if i :| 0 <= i < |h| && h[i].Dispatch? && h[i].endpoints != {} {
      assert h'[i].Dispatch?;
    }
  }

  lemma AnsweredSnoc(h: seq<Move>, m: Move)
    ensures forall e :: AnsweredBy(h + [m], e) <==> AnsweredBy(h, e) || (m.Answer? && m.e == e)
  {
    var h' := h + [m];
    assert h'[|h|] == m;
    assert forall i | 0 <= i < |h| :: h'[i] == h[i];
    forall e ensures AnsweredBy(h', e) <==> AnsweredBy(h, e) || (m.Answer? && m.e == e) {
      if i :| 0 <= i < |h| && h[i].Answer? && h[i].e == e {
        assert h'[i].Answer?;
      }
    }
  }

  lemma DispatchStarts(h: seq<Move>, m: Move)
    requires BehindStage(Ready, h) && m.Dispatch?
    ensures BehindSending(m.mayHold, m.endpoints, m.endpoints != {}, h + [m])
  {
    RefusedSnoc(h, m);
    AnsweredSnoc(h, m);
    assert forall e :: !AnsweredBy(h, e);
  }

  lemma AnswerContinues(stage: Stage, h: seq<Move>, m: Move)
    requires stage.Sending? && BehindStage(stage, h) && AllowsMove(stage, m) && m.Answer?
    ensures BehindStage(Answered(stage, m.e, m.reaction), h + [m])
  {
    RefusedSnoc(h, m);
    AnsweredSnoc(h, m);
    assert (h + [m])[|h|] == m;
  }

  lemma ConcludeEnds(stage: Stage, h: seq<Move>)
    requires stage.Sending? && BehindStage(stage, h) && stage.pending == {}
    ensures BehindStage(NextStage(stage, Conclude), h + [Conclude])
  {
    var h' := h + [Conclude];
    RefusedSnoc(h, Conclude);
    AnsweredSnoc(h, Conclude);
    forall i, e | 0 <= i < |h'| && h'[i].Dispatch? && e in h'[i].endpoints ensures AnsweredBy(h', e) {
      assert i == 3 && h'[3] == h[3];
    }
  }

  lemma MoveFits(stage: Stage, h: seq<Move>, m: Move)
    requires h != [] && h[0].Reserve? && BehindStage(stage, h) && AllowsMove(stage, m) && Keeps(m)
    ensures BehindStage(NextStage(stage, m), h + [m])
  {
    assert (h + [m])[..|h|] == h;
    if m.Dispatch? {
      DispatchStarts(h, m);
    } else if m.Answer? {
      AnswerContinues(stage, h, m);
    } else if m.Conclude? {
      ConcludeEnds(stage, h);
    } else {
      OtherMoveFits(stage, h, m);
    }
  }

  lemma OtherMoveFits(stage: Stage, h: seq<Move>, m: Move)
    requires h != [] && h[0].Reserve? && BehindStage(stage, h) && AllowsMove(stage, m) && Keeps(m)
    requires !m.Dispatch? && !m.Answer? && !m.Conclude?
    ensures BehindStage(NextStage(stage, m), h + [m])
  {
    assert Last(h + [m]) == m;
  }

  /** The moves of a task so far are behind its state. */
  ghost predicate TaskBehind(s: State, t: TaskId, h: seq<Move>) {
    if h == [] then t !in s.tasks else t in s.tasks && Behind(s.tasks[t], h)
  }

  lemma StepFits(s: State, a: Action, t: TaskId, h: seq<Move>)
    requires Enabled(s, a) && TaskBehind(s, t, h)
    ensures TaskBehind(Next(s, a), t, h + MovesOf([a], t))
  {
    FirstMove(a, t);
    if a.Turn? && a.t == t {
      var h' := h + [a.move];
      assert Last(h') == a.move;
      if !a.move.Reserve? {
        assert h'[0] == h[0];
        if Keeps(a.move) {
          MoveFits(s.tasks[t].stage, h, a.move);
        }
      }
    } else {
      assert h + [] == h;
    }
  }

  lemma FirstMove(a: Action, t: TaskId)
    ensures MovesOf([a], t) == if a.Turn? && a.t == t then [a.move] else []
  {
    assert [a][1..] == [];
    assert MovesOf([], t) == [];
  }

  lemma MovesSplit(h: seq<Move>, actions: seq<Action>, t: TaskId)
    requires actions != []
    ensures h + MovesOf([actions[0]], t) + MovesOf(actions[1..], t) == h + MovesOf(actions, t)
  {
    FirstMove(actions[0], t);
    assert MovesOf(actions, t) == MovesOf([actions[0]], t) + MovesOf(actions[1..], t);
  }

  lemma {:induction false} RunFits(s: State, actions: seq<Action>, t: TaskId, h: seq<Move>)
    requires IsRun(s, actions) && TaskBehind(s, t, h)
    ensures TaskBehind(After(s, actions), t, h + MovesOf(actions, t))
    decreases |actions|
  {
    if actions == [] {
      assert h + MovesOf(actions, t) == h;
    } else {
      StepFits(s, actions[0], t, h);
      RunFits(Next(s, actions[0]), actions[1..], t, h + MovesOf([actions[0]], t));
      MovesSplit(h, actions, t);
    }
  }

  lemma HistoryFits(actions: seq<Action>, t: TaskId)
    requires IsRun(Init(), actions)
    ensures TaskBehind(After(Init(), actions), t, MovesOf(actions, t))
  {
    RunFits(Init(), actions, t, []);
    assert [] + MovesOf(actions, t) == MovesOf(actions, t);
  }

  // ---------- Whole runs ----------

  /**
   * In every run, a task may return its nonce exactly when its last move was a failed signing, an
   * abandoned context, or the conclusion of a broadcast that went to some endpoint and that every
   * endpoint it went to refused definitively.
   */
  lemma ReturnEnabledIff(actions: seq<Action>, t: TaskId)
    requires IsRun(Init(), actions)
    ensures var h := MovesOf(actions, t);
            Enabled(After(Init(), actions), Turn(t, Return)) <==>
            && h != []
            && (|| h[|h| - 1].SignFails?
                || h[|h| - 1].Abandon?
                || (&& h[|h| - 1].Conclude?
                    && (exists i | 0 <= i < |h| :: h[i].Dispatch? && h[i].endpoints != {})
                    && (forall i | 0 <= i < |h| && h[i].Answer? :: h[i].reaction == Definitive)))
  {
    HistoryFits(actions, t);
    var h := MovesOf(actions, t);
    assert h != [] ==> Last(h) == h[|h| - 1];
  }

  /** A broadcast is concluded only once every endpoint it went to has answered. */
  lemma ConcludedHeardAll(actions: seq<Action>, t: TaskId, i: nat, e: EndpointId)
    requires IsRun(Init(), actions)
    requires var h := MovesOf(actions, t);
             h != [] && h[|h| - 1].Conclude? && i < |h| && h[i].Dispatch? && e in h[i].endpoints
    ensures var h := MovesOf(actions, t); exists j | 0 <= j < |h| :: h[j].Answer? && h[j].e == e
  {
    HistoryFits(actions, t);
    assert AnsweredBy(MovesOf(actions, t), e);
  }

  /** An acceptance is what a task confirms, and nothing else. */
  lemma ConfirmEnabledIff(actions: seq<Action>, t: TaskId)
    requires IsRun(Init(), actions)
    ensures var h := MovesOf(actions, t);
            Enabled(After(Init(), actions), Turn(t, Confirm)) <==>
            h != [] && h[|h| - 1].Answer? && h[|h| - 1].reaction == Accept
  {
    HistoryFits(actions, t);
  }

  /**
   * A return frees the nonce the task reserved: any new task can be handed it. The task goes on to
   * mark it released, unless signing a preheated context failed or a context was dropped unmarked.
   */
  lemma ReturnFreesNonce(actions: seq<Action>, t: TaskId)
    requires IsRun(Init(), actions) && Enabled(After(Init(), actions), Turn(t, Return))
    ensures var h, s := MovesOf(actions, t), Next(After(Init(), actions), Turn(t, Return));
            && |h| >= 2 && h[0].Reserve?
            && After(Init(), actions).owner == s.owner[h[0].nonce := t]
            && h[0].nonce !in s.owner
            && (forall u, path | u !in s.tasks :: Enabled(s, Turn(u, Reserve(h[0].nonce, path))))
            && (h[|h| - 1].Conclude? ==> s.tasks[t] == Marking(h[0].nonce))
            && (h[|h| - 1].Abandon? ==> s.tasks[t] == if h[|h| - 1].mark then Marking(h[0].nonce) else Idle)
            && (h[|h| - 1].SignFails? ==> s.tasks[t] == if h[0].path == Auto then Marking(h[0].nonce) else Idle)
  {
    HistoryFits(actions, t);
    ReachedInv(actions);
    var s := After(Init(), actions);
    assert TaskOk(s, t, s.tasks[t]);
    assert s.owner == (s.owner - {s.tasks[t].n})[s.tasks[t].n := t];
  }

  /** The marking task then does mark it. */
  lemma MarkingMarks(s: State, t: TaskId, n: nat)
    requires t in s.tasks && s.tasks[t] == Marking(n)
    ensures Enabled(s, Turn(t, MarkReleased))
    ensures var s' := Next(s, Turn(t, MarkReleased));
            s'.ledger == s.ledger[n := Released] && s'.tasks[t] == Idle && s'.owner == s.owner
  {
  }

  /** What a task tells the ledger of its nonce, and when the bytes may get to be anywhere. */
  lemma MovesAreRecorded(s: State, t: TaskId, m: Move)
    requires EnabledMove(s, t, m) && Keeps(m)
    ensures var n, stage, s' := s.tasks[t].n, s.tasks[t].stage, Next(s, Turn(t, m));
            && (m.SignSucceeds? || (m.Enter? && stage == Holding(Auto)) ==>
                  s'.ledger == if n in s.ledger && s.ledger[n] != Released then s.ledger else s.ledger[n := Signed])
            && (m.Confirm? ==> s'.ledger == s.ledger[n := BroadcastAccepted])
            && (!m.SignSucceeds? && !m.Confirm? && !(m.Enter? && stage == Holding(Auto)) ==> s'.ledger == s.ledger)
            && s'.holds == (if m.Dispatch? && m.mayHold != {} then s.holds + {n} else s.holds)
  {
    var n := s.tasks[t].n;
    assert n in s.ledger ==> s.ledger[n := s.ledger[n]] == s.ledger;
  }
}
