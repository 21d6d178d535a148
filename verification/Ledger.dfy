/**
 * The in-flight ledger: one record per nonce, updated in place and bounded by evicting the lowest
 * nonces. The ghost log lists everything that happened; `History` picks out of it what concerns one
 * nonce since its record was last removed, and `Describes` says what the record must then hold.
 */
module Ledger {
  import opened Words

  const MAX_TRACKED_NONCES := 256

  type Hash = nat

  datatype Status = Signed | BroadcastAccepted | MempoolSeen | RebroadcastAccepted | Committed | Released | Mined

  /** What `update` is called with. */
  type Progress = s: Status | s == BroadcastAccepted || s == MempoolSeen || s == RebroadcastAccepted || s == Mined
    witness Mined

  datatype Record = Record(txHashes: set<Hash>, status: Status, firstSeen: nat, accepted: nat, reason: Option<string>,
                           maxFee: Option<u256>, maxPriority: Option<u256>)

  datatype Snapshot = Snapshot(nonce: u64, record: Record, age: nat)

  datatype Activity =
    | Sign(hash: Hash, maxFee: Option<u256>, maxPriority: Option<u256>)
    | Advance(hash: Hash, status: Progress)
    | Release(reason: string)
    | Commit

  /** Something that happened to a nonce, and when. */
  datatype Step = Step(act: Activity, at: nat)

  datatype Event = On(nonce: u64, step: Step) | Evicted(nonce: u64) | Pruned(chainNext: u64)

  predicate IsUnresolved(s: Status) {
    s != Released && s != Mined
  }

  predicate IsAcceptance(s: Status) {
    s == BroadcastAccepted || s == RebroadcastAccepted
  }

  // ---------- One record ----------

  /** The larger of a tracked fee and a newly observed one. */
  function MergeMax(slot: Option<u256>, observed: Option<u256>): Option<u256> {
    if observed.None? then slot
    else if slot.None? then observed
    else Some(Max(slot.value, observed.value))
  }

  function NewRecord(hash: Hash, maxFee: Option<u256>, maxPriority: Option<u256>, now: nat): Record {
    Record({hash}, Signed, now, 0, None, maxFee, maxPriority)
  }

  function Resigned(r: Record, hash: Hash, maxFee: Option<u256>, maxPriority: Option<u256>, now: nat): Record {
    var merged := r.(txHashes := r.txHashes + {hash}, maxFee := MergeMax(r.maxFee, maxFee),
                     maxPriority := MergeMax(r.maxPriority, maxPriority));
    if r.status == Released then merged.(status := Signed, reason := None, firstSeen := now, accepted := 0)
    else merged
  }

  function Progressed(r: Record, hash: Hash, status: Progress): Record {
    r.(txHashes := r.txHashes + {hash}, status := status, accepted := r.accepted + Count(status), reason := None)
  }

  function Count(s: Status): nat {
    if IsAcceptance(s) then 1 else 0
  }

  // ---------- What the log says ----------

  predicate Removes(e: Event, n: u64) {
    (e.Evicted? && e.nonce == n) || (e.Pruned? && n < e.chainNext)
  }

  /** The events on `n` since its record was last removed. */
  function History(log: seq<Event>, n: u64): seq<Step> {
    if log == [] then []
    else
      var earlier, e := log[..|log| - 1], log[|log| - 1];
      if Removes(e, n) then []
      else if e.On? && e.nonce == n then History(earlier, n) + [e.step]
      else History(earlier, n)
  }

  type Life = h: seq<Step> | h != [] witness [Step(Commit, 0)]

  predicate IsRestart(h: Life, i: nat)
    requires i < |h|
  {
    i == 0 || (h[i].act.Sign? && h[i - 1].act.Release?)
  }

  /** The event the current attempt started with. */
  function LastRestart(h: Life): (i: nat)
    ensures i < |h|
    decreases |h|
  {
    if IsRestart(h, |h| - 1) then |h| - 1 else LastRestart(h[..|h| - 1])
  }

  lemma {:induction false} LastRestartIs(h: Life)
    ensures IsRestart(h, LastRestart(h))
    ensures forall j | LastRestart(h) < j < |h| :: !IsRestart(h, j)
    decreases |h|
  {
    if !IsRestart(h, |h| - 1) {
      var earlier := h[..|h| - 1];
      LastRestartIs(earlier);
      assert IsRestart(earlier, LastRestart(earlier));
      forall j | LastRestart(h) < j < |h| ensures !IsRestart(h, j) {
        assert j < |earlier| ==> !IsRestart(earlier, j);
      }
    }
  }

  predicate Accepts(e: Step) {
    e.act.Advance? && IsAcceptance(e.act.status)
  }

  ghost function AcceptedFrom(h: seq<Step>, start: nat): set<nat> {
    set j | start <= j < |h| && Accepts(h[j])
  }

  ghost function Acceptances(h: Life): nat {
    |AcceptedFrom(h, LastRestart(h))|
  }

  /** The last event decides, but a signature only ever revives a released nonce. */
  function StatusAfter(h: Life): Status
    decreases |h|
  {
    var act := h[|h| - 1].act;
    if act.Release? then Released
    else if act.Commit? then Committed
    else if act.Advance? then act.status
    else if IsRestart(h, |h| - 1) then Signed
    else StatusAfter(h[..|h| - 1])
  }

  function FeeOf(e: Step, priority: bool): Option<u256> {
    if !e.act.Sign? then None else if priority then e.act.maxPriority else e.act.maxFee
  }

  ghost predicate IsMaxFee(m: Option<u256>, h: Life, priority: bool) {
    && (forall i | 0 <= i < |h| && FeeOf(h[i], priority).Some? :: m.Some? && FeeOf(h[i], priority).value <= m.value)
    && (m.Some? ==> exists i | 0 <= i < |h| :: FeeOf(h[i], priority) == m)
  }

  predicate Carries(e: Step, hash: Hash) {
    (e.act.Sign? || e.act.Advance?) && e.act.hash == hash
  }

  /** The record a life must have led to. */
  ghost predicate Describes(h: Life, r: Record) {
    && (forall x :: x in r.txHashes <==> exists i | 0 <= i < |h| :: Carries(h[i], x))
    && r.status == StatusAfter(h)
    && r.firstSeen == h[LastRestart(h)].at
    && r.accepted == Acceptances(h)
    && r.reason == (if h[|h| - 1].act.Release? then Some(h[|h| - 1].act.reason) else None)
    && IsMaxFee(r.maxFee, h, false)
    && IsMaxFee(r.maxPriority, h, true)
  }

  /** A nonce is released exactly when the last thing that happened to it was its release. */
  lemma {:induction false} ReleasedIff(h: Life)
    ensures StatusAfter(h) == Released <==> h[|h| - 1].act.Release?
    decreases |h|
  {
    if h[|h| - 1].act.Sign? && !IsRestart(h, |h| - 1) {
      ReleasedIff(h[..|h| - 1]);
    }
  }

  /**
   * A nonce is resolved exactly when it was released last, or when it was mined and only signed since,
   * which does not revive it.
   */
  lemma {:induction false} UnresolvedIff(h: Life)
    ensures !IsUnresolved(StatusAfter(h)) <==>
            || h[|h| - 1].act.Release?
            || exists k | 0 <= k < |h| :: h[k].act.Advance? && h[k].act.status == Mined
                                          && forall j | k < j < |h| :: h[j].act.Sign?
    decreases |h|
  {
    var last := h[|h| - 1].act;
    if last.Sign? && |h| > 1 {
      var front := h[..|h| - 1];
      UnresolvedIff(front);
      if k :| 0 <= k < |h| && h[k].act.Advance? && h[k].act.status == Mined && forall j | k < j < |h| :: h[j].act.Sign? {
        assert front[k] == h[k] && forall j | k < j < |front| :: front[j] == h[j];
        assert k == |front| - 1 || h[|h| - 2].act.Sign?;
      }
      if k :| 0 <= k < |front| && front[k].act.Advance? && front[k].act.status == Mined
              && forall j | k < j < |front| :: front[j].act.Sign? {
        assert h[k] == front[k] && forall j | k < j < |front| :: h[j] == front[j];
      }
    } else if last.Advance? {
      assert h[|h| - 1].act == last;
    }
  }

  /** Otherwise the status is what happened last, and a signature is only that if it starts an attempt. */
  lemma StatusIs(h: Life)
    ensures var act := h[|h| - 1].act;
            && (act.Release? ==> StatusAfter(h) == Released) && (act.Commit? ==> StatusAfter(h) == Committed)
            && (act.Advance? ==> StatusAfter(h) == act.status)
            && (act.Sign? ==> StatusAfter(h) == if |h| == 1 || h[|h| - 2].act.Release? then Signed
                                                else StatusAfter(h[..|h| - 1]))
  {
  }

  /** A record holds the largest max fee and the largest tip that its nonce was ever signed with. */
  lemma FeesAreLargest(h: Life, r: Record, i: nat)
    requires Describes(h, r) && i < |h| && h[i].act.Sign?
    ensures h[i].act.maxFee.Some? ==> r.maxFee.Some? && h[i].act.maxFee.value <= r.maxFee.value
    ensures h[i].act.maxPriority.Some? ==> r.maxPriority.Some? && h[i].act.maxPriority.value <= r.maxPriority.value
    ensures r.maxFee.Some? ==> exists k | 0 <= k < |h| :: h[k].act.Sign? && h[k].act.maxFee == r.maxFee
    ensures r.maxPriority.Some? ==> exists k | 0 <= k < |h| :: h[k].act.Sign? && h[k].act.maxPriority == r.maxPriority
  {
    assert FeeOf(h[i], false) == h[i].act.maxFee && FeeOf(h[i], true) == h[i].act.maxPriority;
    if r.maxFee.Some? {
      var k :| 0 <= k < |h| && FeeOf(h[k], false) == r.maxFee;
      assert h[k].act.Sign?;
    }
    if r.maxPriority.Some? {
      var k :| 0 <= k < |h| && FeeOf(h[k], true) == r.maxPriority;
      assert h[k].act.Sign?;
    }
  }

  /** Every hash ever signed or reported at the nonce is kept, and no other; a reason is that of a last release. */
  lemma HashesAre(h: Life, r: Record, x: Hash)
    requires Describes(h, r)
    ensures x in r.txHashes <==>
            exists i | 0 <= i < |h| :: (h[i].act.Sign? && h[i].act.hash == x) || (h[i].act.Advance? && h[i].act.hash == x)
    ensures r.reason == if h[|h| - 1].act.Release? then Some(h[|h| - 1].act.reason) else None
  {
    if i :| 0 <= i < |h| && ((h[i].act.Sign? && h[i].act.hash == x) || (h[i].act.Advance? && h[i].act.hash == x)) {
      assert Carries(h[i], x);
    }
    if x in r.txHashes {
      var i :| 0 <= i < |h| && Carries(h[i], x);
      assert h[i].act.Sign? || h[i].act.Advance?;
    }
  }

  /**
   * A record's age and count are those of the current attempt: it starts with the first event or the
   * last signature that follows a release, and counts the acceptances since.
   */
  lemma AttemptIs(h: Life, r: Record) returns (start: nat)
    requires Describes(h, r)
    ensures start < |h| && r.firstSeen == h[start].at
    ensures start == 0 || (h[start].act.Sign? && h[start - 1].act.Release?)
    ensures forall j | start < j < |h| :: !(h[j].act.Sign? && h[j - 1].act.Release?)
    ensures r.accepted == |set j | start <= j < |h| && h[j].act.Advance?
                                   && (h[j].act.status == BroadcastAccepted || h[j].act.status == RebroadcastAccepted)|
  {
    LastRestartIs(h);
    start := LastRestart(h);
    forall j | start < j < |h| ensures !(h[j].act.Sign? && h[j - 1].act.Release?) {
      assert !IsRestart(h, j);
    }
    assert AcceptedFrom(h, start) ==
           set j | start <= j < |h| && h[j].act.Advance?
                   && (h[j].act.status == BroadcastAccepted || h[j].act.status == RebroadcastAccepted);
  }

  // ---------- Extending a life ----------

  lemma MaxFeeExtends(h: Life, e: Step, m: Option<u256>, priority: bool)
    requires IsMaxFee(m, h, priority)
    ensures IsMaxFee(MergeMax(m, FeeOf(e, priority)), h + [e], priority)
  {
    var h' := h + [e];
    var m' := MergeMax(m, FeeOf(e, priority));
    assert h'[|h|] == e;
    assert forall i | 0 <= i < |h| :: h'[i] == h[i];
    if m'.Some? {
      if m' == m {
        var i :| 0 <= i < |h| && FeeOf(h[i], priority) == m;
        assert FeeOf(h'[i], priority) == m';
      } else {
        assert FeeOf(h'[|h|], priority) == m';
      }
    }
  }

  lemma HashesExtend(h: Life, e: Step, hashes: set<Hash>, hashes': set<Hash>)
    requires forall x :: x in hashes <==> exists i | 0 <= i < |h| :: Carries(h[i], x)
    requires forall x :: x in hashes' <==> x in hashes || Carries(e, x)
    ensures forall x :: x in hashes' <==> exists i | 0 <= i < |h + [e]| :: Carries((h + [e])[i], x)
  {
    var h' := h + [e];
    assert h'[|h|] == e;
    forall x ensures x in hashes' <==> exists i | 0 <= i < |h'| :: Carries(h'[i], x) {
      if i :| 0 <= i < |h| && Carries(h[i], x) {
        assert Carries(h'[i], x);
      }
      if i :| 0 <= i < |h'| && Carries(h'[i], x) {
        assert i < |h| ==> Carries(h[i], x);
      }
    }
  }

  /** An event that restarts nothing keeps the start of the attempt and adds its own acceptance. */
  lemma AcceptancesExtend(h: Life, e: Step)
    requires !(e.act.Sign? && h[|h| - 1].act.Release?)
    ensures (h + [e])[..|h|] == h
    ensures LastRestart(h + [e]) == LastRestart(h)
    ensures Acceptances(h + [e]) == Acceptances(h) + if e.act.Advance? then Count(e.act.status) else 0
  {
    var h' := h + [e];
    assert h'[..|h|] == h;
    assert !IsRestart(h', |h|);
    AcceptedSnoc(h, e, LastRestart(h));
  }

  lemma AcceptedSnoc(h: seq<Step>, e: Step, start: nat)
    requires start <= |h|
    ensures AcceptedFrom(h + [e], start) == AcceptedFrom(h, start) + (if Accepts(e) then {|h|} else {})
    ensures |AcceptedFrom(h + [e], start)| == |AcceptedFrom(h, start)| + if Accepts(e) then 1 else 0
  {
    var h' := h + [e];
    forall j ensures j in AcceptedFrom(h', start) <==> j in AcceptedFrom(h, start) || (Accepts(e) && j == |h|) {
      if 0 <= j < |h| {
        assert h'[j] == h[j];
      } else if j == |h| {
        assert h'[j] == e;
      }
    }
    assert |h| !in AcceptedFrom(h, start);
  }

  lemma RestartIsFresh(h: Life)
    requires h[|h| - 1].act.Sign? && IsRestart(h, |h| - 1)
    ensures LastRestart(h) == |h| - 1 && Acceptances(h) == 0
  {
    assert AcceptedFrom(h, |h| - 1) == {};
  }

  lemma ResignDescribes(h: Life, r: Record, e: Step)
    requires Describes(h, r) && e.act.Sign?
    ensures Describes(h + [e], Resigned(r, e.act.hash, e.act.maxFee, e.act.maxPriority, e.at))
  {
    var h' := h + [e];
    var r' := Resigned(r, e.act.hash, e.act.maxFee, e.act.maxPriority, e.at);
    ReleasedIff(h);
    MaxFeeExtends(h, e, r.maxFee, false);
    MaxFeeExtends(h, e, r.maxPriority, true);
    HashesExtend(h, e, r.txHashes, r'.txHashes);
    assert h'[..|h|] == h;
    if r.status == Released {
      RestartIsFresh(h');
    } else {
      AcceptancesExtend(h, e);
    }
  }

  lemma UpdateDescribes(h: Life, r: Record, e: Step)
    requires Describes(h, r) && e.act.Advance?
    ensures Describes(h + [e], Progressed(r, e.act.hash, e.act.status))
  {
    MaxFeeExtends(h, e, r.maxFee, false);
    MaxFeeExtends(h, e, r.maxPriority, true);
    HashesExtend(h, e, r.txHashes, r.txHashes + {e.act.hash});
    AcceptancesExtend(h, e);
  }

  lemma MarkDescribes(h: Life, r: Record, e: Step, status: Status, reason: Option<string>)
    requires Describes(h, r)
    requires (e.act.Release? && status == Released && reason == Some(e.act.reason))
             || (e.act.Commit? && status == Committed && reason == None)
    ensures Describes(h + [e], r.(status := status, reason := reason))
  {
    MaxFeeExtends(h, e, r.maxFee, false);
    MaxFeeExtends(h, e, r.maxPriority, true);
    HashesExtend(h, e, r.txHashes, r.txHashes);
    AcceptancesExtend(h, e);
  }

  lemma FirstDescribes(e: Step, r: Record)
    requires r == Record(if e.act.Sign? || e.act.Advance? then {e.act.hash} else {}, StatusAfter([e]), e.at,
                         if e.act.Advance? then Count(e.act.status) else 0,
                         if e.act.Release? then Some(e.act.reason) else None,
                         FeeOf(e, false), FeeOf(e, true))
    ensures Describes([e], r)
  {
    var h: Life := [e];
    assert h[0] == e;
    forall x ensures x in r.txHashes <==> exists i | 0 <= i < |h| :: Carries(h[i], x) {
      assert x in r.txHashes <==> Carries(h[0], x);
    }
    assert FeeOf(h[0], false) == r.maxFee && FeeOf(h[0], true) == r.maxPriority;
    AcceptedSnoc([], e, 0);
    assert [] + [e] == h && AcceptedFrom([], 0) == {};
  }

  // ---------- The ledger ----------

  /** `after` is what is left of `before` once the lowest nonces over the limit are gone. */
  ghost predicate IsTrimmed(before: map<u64, Record>, after: map<u64, Record>) {
    && after.Keys <= before.Keys
    && (forall n | n in after :: after[n] == before[n])
    && (forall gone, kept | gone in before && gone !in after && kept in after :: gone < kept)
    && |after| == Min(|before|, MAX_TRACKED_NONCES)
  }

  function Without(records: map<u64, Record>, n: u64): map<u64, Record> {
    map m | m in records && m != n :: records[m]
  }

  /** Some of the lowest nonces are gone, but not more than the limit allows. */
  ghost predicate IsPartlyTrimmed(before: map<u64, Record>, after: map<u64, Record>) {
    && after.Keys <= before.Keys
    && (forall n | n in after :: after[n] == before[n])
    && (forall gone, kept | gone in before && gone !in after && kept in after :: gone < kept)
    && (after == before || MAX_TRACKED_NONCES <= |after| <= |before|)
  }

  lemma FullyTrimmed(before: map<u64, Record>, after: map<u64, Record>)
    requires IsPartlyTrimmed(before, after) && |after| <= MAX_TRACKED_NONCES
    ensures IsTrimmed(before, after)
  {
  }

  lemma EvictKeepsTrim(before: map<u64, Record>, after: map<u64, Record>, first: u64)
    requires IsPartlyTrimmed(before, after) && |after| > MAX_TRACKED_NONCES
    requires first in after && forall n | n in after :: first <= n
    ensures IsPartlyTrimmed(before, Without(after, first)) && |Without(after, first)| == |after| - 1
  {
    var next := Without(after, first);
    assert next.Keys == after.Keys - {first};
    assert |next| == |next.Keys| && |after| == |after.Keys|;
    forall gone, kept | gone in before && gone !in next && kept in next ensures gone < kept {
      assert kept in after && kept != first;
    }
  }

  /** By its log, `n` has a record that is neither released nor mined. */
  ghost predicate UnresolvedIn(log: seq<Event>, n: u64) {
    History(log, n) != [] && IsUnresolved(StatusAfter(History(log, n)))
  }

  /** The records `after` a log agree with it. */
  ghost predicate Agrees(records: map<u64, Record>, log: seq<Event>) {
    && (forall n: u64 :: n in records <==> History(log, n) != [])
    && (forall n | n in records :: Describes(History(log, n), records[n]))
  }

  lemma UpsertAgrees(records: map<u64, Record>, log: seq<Event>, e: Step, n: u64, r: Record)
    requires Agrees(records, log)
    requires Describes(History(log, n) + [e], r)
    ensures Agrees(records[n := r], log + [On(n, e)])
  {
    var log' := log + [On(n, e)];
    assert log'[..|log|] == log;
    assert History(log', n) == History(log, n) + [e];
    forall m: u64 | m != n ensures History(log', m) == History(log, m) {
    }
  }

  lemma RemoveAgrees(records: map<u64, Record>, after: map<u64, Record>, log: seq<Event>, e: Event)
    requires Agrees(records, log) && (e.Evicted? || e.Pruned?)
    requires forall n: u64 :: n in after <==> n in records && !Removes(e, n)
    requires forall n | n in after :: after[n] == records[n]
    ensures Agrees(after, log + [e])
  {
    var log' := log + [e];
    assert log'[..|log|] == log;
    forall n: u64 ensures History(log', n) == if Removes(e, n) then [] else History(log, n) {
    }
  }

  lemma UnresolvedAgrees(records: map<u64, Record>, log: seq<Event>)
    requires Agrees(records, log)
    ensures forall n: u64 :: UnresolvedIn(log, n) <==> n in records && IsUnresolved(records[n].status)
  {
    forall n: u64 ensures UnresolvedIn(log, n) <==> n in records && IsUnresolved(records[n].status) {
      if n in records {
        assert Describes(History(log, n), records[n]);
      }
    }
  }

  /** Evictions at the end of a log leave what it says of a nonce, or end the nonce's life. */
  lemma {:induction false} EvictionsKeepOrEnd(log: seq<Event>, cut: nat, n: u64)
    requires cut <= |log| && forall i | cut <= i < |log| :: log[i].Evicted?
    ensures History(log, n) == History(log[..cut], n) || History(log, n) == []
    decreases |log|
  {
    if cut == |log| {
      assert log[..cut] == log;
    } else {
      var front := log[..|log| - 1];
      EvictionsKeepOrEnd(front, cut, n);
      assert front[..cut] == log[..cut];
      assert log[|log| - 1].Evicted?;
    }
  }

  lemma StepAppends(log: seq<Event>, n: u64, e: Step)
    ensures History(log + [On(n, e)], n) == History(log, n) + [e]
  {
    assert (log + [On(n, e)])[..|log|] == log;
  }

  /** A nonce that outlives the evictions after an operation on it has just that step more. */
  lemma SurvivorGrows(log: seq<Event>, log': seq<Event>, n: u64, e: Step)
    requires log + [On(n, e)] <= log' && forall i | |log| < i < |log'| :: log'[i].Evicted?
    requires History(log', n) != []
    ensures History(log', n) == History(log, n) + [e]
  {
    StepAppends(log, n, e);
    EvictionsKeepOrEnd(log', |log| + 1, n);
    assert log'[..|log| + 1] == log + [On(n, e)];
  }

  class InflightNonceLedger {
    var records: map<u64, Record>
    ghost var log: seq<Event>

    ghost predicate Valid()
      reads this
    {
      Agrees(records, log)
    }

    constructor ()
      ensures Valid() && records == map[] && log == []
    {
      records, log := map[], [];
    }

    /** Evict the lowest nonces until the ledger is within its limit. */
    method PruneOldRecords()
      requires Valid()
      modifies this
      ensures Valid() && IsTrimmed(old(records), records) && |records| == Min(|old(records)|, 256)
      ensures old(log) <= log && forall i | |old(log)| <= i < |log| :: log[i].Evicted?
    {
      while |records| > MAX_TRACKED_NONCES
        invariant Valid() && IsPartlyTrimmed(old(records), records)
        invariant old(log) <= log && forall i | |old(log)| <= i < |log| :: log[i].Evicted?
        decreases |records|
      {
        ghost var before := records;
        var first := EvictLowest();
        EvictKeepsTrim(old(records), before, first);
      }
      FullyTrimmed(old(records), records);
    }

    method EvictLowest() returns (first: u64)
      requires Valid() && records != map[]
      modifies this
      ensures Valid() && records == Without(old(records), first) && log == old(log) + [Evicted(first)]
      ensures first in old(records) && forall n | n in old(records) :: first <= n
    {
      first := Lowest(records.Keys);
      RemoveAgrees(records, Without(records, first), log, Evicted(first));
      records := Without(records, first);
      log := log + [Evicted(first)];
    }

    method RecordSigned(nonce: u64, hash: Hash, maxFee: Option<u256>, maxPriority: Option<u256>, now: nat)
      requires Valid()
      modifies this
      ensures Valid()
      ensures old(log) + [On(nonce, Step(Sign(hash, maxFee, maxPriority), now))] <= log
      ensures forall i | |old(log)| < i < |log| :: log[i].Evicted?
      ensures IsTrimmed(old(records)[nonce := if nonce in old(records)
                                              then Resigned(old(records)[nonce], hash, maxFee, maxPriority, now)
                                              else NewRecord(hash, maxFee, maxPriority, now)], records)
      ensures nonce in records ==>
                History(log, nonce) == old(History(log, nonce)) + [Step(Sign(hash, maxFee, maxPriority), now)]
      ensures nonce !in records ==> |records| == MAX_TRACKED_NONCES && forall m | m in records :: nonce < m
    {
      ghost var e := Step(Sign(hash, maxFee, maxPriority), now);
      if nonce in records {
        var record := Resigned(records[nonce], hash, maxFee, maxPriority, now);
        ResignDescribes(History(log, nonce), records[nonce], e);
        UpsertAgrees(records, log, e, nonce, record);
        records := records[nonce := record];
      } else {
        var record := NewRecord(hash, maxFee, maxPriority, now);
        FirstDescribes(e, record);
        assert History(log, nonce) + [e] == [e];
        UpsertAgrees(records, log, e, nonce, record);
        records := records[nonce := record];
      }
      log := log + [On(nonce, e)];
      ghost var signed := records;
      PruneOldRecords();
      if nonce in records {
        SurvivorGrows(old(log), log, nonce, e);
      } else {
        EvictedWasLowest(signed, records, nonce);
      }
    }

    /** `mark_broadcast_accepted`, `mark_mempool_seen`, `mark_rebroadcast_accepted` and `mark_mined`. */
    method Update(nonce: u64, hash: Hash, status: Progress, now: nat)
      requires Valid()
      modifies this
      ensures Valid()
      ensures old(log) + [On(nonce, Step(Advance(hash, status), now))] <= log
      ensures forall i | |old(log)| < i < |log| :: log[i].Evicted?
      ensures IsTrimmed(old(records)[nonce := Progressed(if nonce in old(records) then old(records)[nonce]
                                                         else NewRecord(hash, None, None, now), hash, status)], records)
      ensures nonce in records ==> History(log, nonce) == old(History(log, nonce)) + [Step(Advance(hash, status), now)]
    {
      ghost var e := Step(Advance(hash, status), now);
      var record := Progressed(if nonce in records then records[nonce] else NewRecord(hash, None, None, now), hash, status);
      if nonce in records {
        UpdateDescribes(History(log, nonce), records[nonce], e);
      } else {
        assert History(log, nonce) + [e] == [e];
        assert record.txHashes == {hash};
        FirstDescribes(e, record);
      }
      UpsertAgrees(records, log, e, nonce, record);
      records := records[nonce := record];
      log := log + [On(nonce, e)];
      PruneOldRecords();
      if nonce in records {
        SurvivorGrows(old(log), log, nonce, e);
      }
    }

    /** Marking does not prune: the ledger may exceed its limit until the next signature or update. */
    method MarkReleased(nonce: u64, reason: string, now: nat)
      requires Valid()
      modifies this
      ensures Valid() && log == old(log) + [On(nonce, Step(Release(reason), now))]
      ensures records == old(records)[nonce := if nonce in old(records)
                                               then old(records)[nonce].(status := Released, reason := Some(reason))
                                               else Record({}, Released, now, 0, Some(reason), None, None)]
    {
      ghost var e := Step(Release(reason), now);
      if nonce in records {
        var record := records[nonce].(status := Released, reason := Some(reason));
        MarkDescribes(History(log, nonce), records[nonce], e, Released, Some(reason));
        UpsertAgrees(records, log, e, nonce, record);
        records := records[nonce := record];
      } else {
        var record := NewRecord(0, None, None, now).(txHashes := {}, status := Released, reason := Some(reason));
        FirstDescribes(e, record);
        assert History(log, nonce) + [e] == [e];
        UpsertAgrees(records, log, e, nonce, record);
        records := records[nonce := record];
      }
      log := log + [On(nonce, e)];
    }

    method MarkCommitted(nonce: u64, now: nat)
      requires Valid()
      modifies this
      ensures Valid() && log == old(log) + [On(nonce, Step(Commit, now))]
      ensures records == old(records)[nonce := if nonce in old(records)
                                               then old(records)[nonce].(status := Committed, reason := None)
                                               else Record({}, Committed, now, 0, None, None, None)]
    {
      ghost var e := Step(Commit, now);
      if nonce in records {
        var record := records[nonce].(status := Committed, reason := None);
        MarkDescribes(History(log, nonce), records[nonce], e, Committed, None);
        UpsertAgrees(records, log, e, nonce, record);
        records := records[nonce := record];
      } else {
        var record := NewRecord(0, None, None, now).(txHashes := {}, status := Committed);
        FirstDescribes(e, record);
        assert History(log, nonce) + [e] == [e];
        UpsertAgrees(records, log, e, nonce, record);
        records := records[nonce := record];
      }
      log := log + [On(nonce, e)];
    }

    /** Forget every nonce the chain has consumed. */
    method PruneConsumed(chainNext: u64)
      requires Valid()
      modifies this
      ensures Valid() && log == old(log) + [Pruned(chainNext)]
      ensures records == map n | n in old(records) && chainNext <= n :: old(records)[n]
    {
      ghost var before := records;
      records := map n | n in records && chainNext <= n :: records[n];
      RemoveAgrees(before, records, log, Pruned(chainNext));
      log := log + [Pruned(chainNext)];
    }

    /** The lowest nonce at or above `chainNext` that its log leaves unresolved. */
    method LowestUnresolvedAtOrAbove(chainNext: u64, now: nat) returns (found: Option<Snapshot>)
      requires Valid()
      ensures found.None? ==> forall n: u64 | chainNext <= n :: !UnresolvedIn(log, n)
      ensures found.Some? ==>
                && chainNext <= found.value.nonce && UnresolvedIn(log, found.value.nonce)
                && (forall m: u64 | chainNext <= m < found.value.nonce :: !UnresolvedIn(log, m))
                && found.value.nonce in records && found.value.record == records[found.value.nonce]
                && found.value.age == Max(now, found.value.record.firstSeen) - found.value.record.firstSeen
    {
      var candidates := set n | n in records && chainNext <= n && IsUnresolved(records[n].status);
      UnresolvedAgrees(records, log);
      if candidates == {} {
        found := None;
        forall n: u64 | chainNext <= n ensures !UnresolvedIn(log, n) {
          assert n !in candidates;
        }
      } else {
        var n := Lowest(candidates);
        found := Some(Snapshot(n, records[n], Max(now, records[n].firstSeen) - records[n].firstSeen));
        forall m: u64 | chainNext <= m < n ensures !UnresolvedIn(log, m) {
          assert m !in candidates;
        }
      }
    }

    method UnresolvedCount() returns (count: nat)
      requires Valid()
      ensures count == |set n | n in records && UnresolvedIn(log, n)|
    {
      var unresolved := set n | n in records && IsUnresolved(records[n].status);
      UnresolvedAgrees(records, log);
      assert unresolved == set n | n in records && UnresolvedIn(log, n);
      count := |unresolved|;
    }
  }

  // ---------- Trimming ----------

  /** The limit and the rule of evicting the lowest determine what is kept. */
  lemma TrimmedIsUnique(before: map<u64, Record>, a: map<u64, Record>, b: map<u64, Record>)
    requires IsTrimmed(before, a) && IsTrimmed(before, b)
    ensures a == b
  {
    TrimmedKeysNest(before, a, b);
    TrimmedKeysNest(before, b, a);
    assert a.Keys == b.Keys;
  }

  lemma TrimmedKeysNest(before: map<u64, Record>, a: map<u64, Record>, b: map<u64, Record>)
    requires IsTrimmed(before, a) && IsTrimmed(before, b)
    ensures a.Keys <= b.Keys
  {
    assert |a| == |a.Keys| && |b| == |b.Keys|;
    if n :| n in a && n !in b {
      forall m | m in b ensures m in a - {n} {
        assert n < m;
      }
      SubsetIsSmaller(b.Keys, a.Keys - {n});
      assert false;
    }
  }

  lemma {:induction false} SubsetIsSmaller(a: set<u64>, b: set<u64>)
    requires a <= b
    ensures |a| <= |b|
    decreases |a|
  {
    if a != {} {
      var x :| x in a;
      SubsetIsSmaller(a - {x}, b - {x});
    }
  }

  /** What was evicted was below all that is kept, and the ledger is full. */
  lemma EvictedWasLowest(before: map<u64, Record>, after: map<u64, Record>, n: u64)
    requires IsTrimmed(before, after) && n in before && n !in after
    ensures |after| == MAX_TRACKED_NONCES && forall m | m in after :: n < m
  {
    assert |before| == |before.Keys| && |after| == |after.Keys|;
    SubsetIsSmaller(after.Keys, before.Keys - {n});
    assert |before.Keys - {n}| == |before.Keys| - 1;
  }

  /** A nonce evicted by one operation on it is evicted by the next one too. */
  lemma EvictedAgain(before: map<u64, Record>, after: map<u64, Record>, n: u64, r: Record)
    requires n !in before && |before| == MAX_TRACKED_NONCES && forall m | m in before :: n < m
    requires IsTrimmed(before[n := r], after)
    ensures n !in after
  {
    assert before[n := r].Keys == before.Keys + {n};
    assert |before[n := r]| == |before[n := r].Keys| && |before| == |before.Keys|;
    LowNewcomerIsEvicted(before[n := r], after, n);
  }

  /** A full ledger drops a nonce lower than all it holds as soon as it is recorded. */
  lemma LowNewcomerIsEvicted(before: map<u64, Record>, after: map<u64, Record>, n: u64)
    requires |before| > MAX_TRACKED_NONCES && n in before
    requires forall m | m in before && m != n :: n < m
    requires IsTrimmed(before, after)
    ensures n !in after
  {
    assert |before| == |before.Keys| && |after| == |after.Keys|;
    if n in after {
      SubsetIsSmaller(before.Keys, after.Keys);
      assert false;
    }
  }
}
