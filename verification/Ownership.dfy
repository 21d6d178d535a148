/**
 * Who may use a nonce, from its reservation to its settlement: the automatic and the preheated send
 * paths of the wallet, run by any number of tasks, over the tracker, the ledger and the endpoints.
 *
 * Each step is one operation of the tracker or of the ledger, both of which are atomic, or one answer
 * of an endpoint. A reservation may return any nonce that is not outstanding, which is all that
 * concurrent reservations promise. `holds` is hidden from the wallet: the nonces for which some
 * endpoint has, or may yet get, the signed bytes. The one thing assumed of endpoints is that a
 * definitive refusal comes only from an endpoint that does not.
 */
module Ownership {
  import opened Ledger

  type TaskId = nat
  type EndpointId = nat

  /** `Auto` signs with a bare nonce; `Preheat` keeps the reservation in a context until it settles. */
  datatype Path = Auto | Preheat

  datatype Stage =
    | Reserved(path: Path)
    | Holding(path: Path)
    | Ready
    | Sending(mayHold: set<EndpointId>, pending: set<EndpointId>, definitive: bool)
    | Ending(end: End)

  datatype End = AcceptedBy | Retained | Releasing(mark: bool)

  /** A task that owns a nonce, one that has returned it but not yet told the ledger, or one that is done. */
  datatype Task = Owning(n: nat, stage: Stage) | Marking(n: nat) | Idle

  /** `late` is bookkeeping of the proof: nonces marked released after they had been reserved again. */
  datatype State = State(owner: map<nat, TaskId>, ledger: map<nat, Status>, holds: set<nat>, late: set<nat>,
                         tasks: map<TaskId, Task>)

  datatype Reaction = Accept | Definitive | Ambiguous

  datatype Move =
    | Reserve(nonce: nat, path: Path)
    | SignFails
    | SignSucceeds
    | Abandon(mark: bool)
    | Enter
    | NoPermit
    | Dispatch(endpoints: set<EndpointId>, mayHold: set<EndpointId>)
    | Answer(e: EndpointId, reaction: Reaction)
    | Conclude
    | Confirm
    | Return
    | MarkReleased

  /** Tasks move; the ledger also hears of transactions from the chain, and forgets its lowest nonces. */
  datatype Action = Turn(t: TaskId, move: Move) | Observe(n: nat, status: Status) | Forget(nonces: set<nat>)

  ghost function Init(): State {
    State(map[], map[], {}, {}, map[])
  }

  // ---------- Ledger operations ----------

  /** `record_signed`: a released nonce starts a new attempt, any other keeps its status. */
  ghost function Recorded(s: State, n: nat): State {
    var status := if n in s.ledger && s.ledger[n] != Released then s.ledger[n] else Signed;
    s.(ledger := s.ledger[n := status], late := s.late - {n})
  }

  ghost function UpdatedTo(s: State, n: nat, status: Status): State {
    s.(ledger := s.ledger[n := status], late := s.late - {n})
  }

  ghost function Marked(s: State, n: nat): State {
    s.(ledger := s.ledger[n := Released], late := if n in s.owner then s.late + {n} else s.late)
  }

  // ---------- Steps ----------

  ghost function At(s: State, t: TaskId, task: Task): State {
    s.(tasks := s.tasks[t := task])
  }

  ghost predicate AllowsMove(stage: Stage, m: Move) {
    if m.SignFails? || m.SignSucceeds? then stage.Reserved?
    else if m.Abandon? then stage == Reserved(Preheat) || stage == Holding(Preheat)
    else if m.Enter? then stage.Holding?
    else if m.NoPermit? then stage.Ready?
    else if m.Dispatch? then stage.Ready? && m.mayHold <= m.endpoints
    else if m.Answer? then
      && stage.Sending? && m.e in stage.pending
      && (m.reaction == Accept ==> m.e in stage.mayHold)
      && (m.reaction == Definitive ==> m.e !in stage.mayHold)
    else if m.Conclude? then stage.Sending? && stage.pending == {}
    else if m.Confirm? then stage == Ending(AcceptedBy)
    else m.Return? && stage.Ending? && stage.end.Releasing?
  }

  ghost predicate EnabledMove(s: State, t: TaskId, m: Move) {
    if m.Reserve? then t !in s.tasks && m.nonce !in s.owner
    else if m.MarkReleased? then t in s.tasks && s.tasks[t].Marking?
    else t in s.tasks && s.tasks[t].Owning? && AllowsMove(s.tasks[t].stage, m)
  }

  ghost predicate Enabled(s: State, a: Action) {
    match a
    case Turn(t, m) => EnabledMove(s, t, m)
    case Observe(_, status) => status != Released
    case Forget(_) => true
  }

  /** What an answer makes of a broadcast. */
  ghost function Answered(stage: Stage, e: EndpointId, reaction: Reaction): Stage
    requires stage.Sending?
  {
    match reaction
    case Accept => Ending(AcceptedBy)
    case Definitive => stage.(pending := stage.pending - {e})
    case Ambiguous => stage.(pending := stage.pending - {e}, definitive := false)
  }

  /** The stage a move leads to while the task keeps its nonce. */
  ghost function NextStage(stage: Stage, m: Move): Stage {
    if m.SignFails? && stage.Reserved? then Ending(Releasing(stage.path == Auto))
    else if m.SignSucceeds? && stage.Reserved? then Holding(stage.path)
    else if m.Abandon? then Ending(Releasing(m.mark))
    else if m.Enter? then Ready
    else if m.NoPermit? then Ending(Retained)
    else if m.Dispatch? then Sending(m.mayHold, m.endpoints, m.endpoints != {})
    else if m.Answer? && stage.Sending? then Answered(stage, m.e, m.reaction)
    else if m.Conclude? && stage.Sending? then Ending(if stage.definitive then Releasing(true) else Retained)
    else Ending(Retained)
  }

  /** What the move does to the ledger and, at the endpoints, to the bytes. */
  ghost function Effect(s: State, n: nat, stage: Stage, m: Move): State {
    if m.SignSucceeds? then Recorded(s, n)
    else if m.Enter? then (if stage == Holding(Auto) then Recorded(s, n) else s)
    else if m.Dispatch? then (if m.mayHold != {} then s.(holds := s.holds + {n}) else s)
    else if m.Confirm? then UpdatedTo(s, n, BroadcastAccepted)
    else s
  }

  ghost function Next(s: State, a: Action): State
    requires Enabled(s, a)
  {
    match a
    case Observe(n, status) => UpdatedTo(s, n, status)
    case Forget(nonces) => s.(ledger := s.ledger - nonces)
    case Turn(t, m) =>
      if m.Reserve? then At(s.(owner := s.owner[m.nonce := t]), t, Owning(m.nonce, Reserved(m.path)))
      else
        var n := s.tasks[t].n;
        if m.MarkReleased? then At(Marked(s, n), t, Idle)
        else if m.Return? then
          At(s.(owner := s.owner - {n}), t, if s.tasks[t].stage.end.mark then Marking(n) else Idle)
        else
          var stage := s.tasks[t].stage;
          At(Effect(s, n, stage, m), t, Owning(n, NextStage(stage, m)))
  }

  ghost predicate IsRun(s: State, actions: seq<Action>)
    decreases |actions|
  {
    actions == [] || (Enabled(s, actions[0]) && IsRun(Next(s, actions[0]), actions[1..]))
  }

  ghost function After(s: State, actions: seq<Action>): State
    requires IsRun(s, actions)
    decreases |actions|
  {
    if actions == [] then s else After(Next(s, actions[0]), actions[1..])
  }
}
