/** Cancelling the head-of-line stuck nonce, and how the fees of repeated cancels grow. */
module Replacement {
  import opened Words
  import opened Fees
  import opened Ledger
  import Nonce

  const STALL_REPLACE_WINDOW_MS: nat := 3_000
  const STALL_REPLACE_MIN_HEAD_AGE_MS: nat := 30_000

  datatype Replacement = Replacement(nonce: u64, at: nat)

  datatype Outcome =
    | Cancelled(nonce: u64, hash: Hash)
    | NotStalled
    | NoCandidate
    | RaceAborted
    | Failed

  /** What the chain, the endpoints, the signer and the clock answer during one call; `None` is an error. */
  datatype Answers = Answers(now: nat, chainLatest: Option<u64>, snapshotAt: nat, networkTip: Option<u256>,
                             networkGas: Option<u256>, signed: Option<Hash>, accepted: bool,
                             signedAt: nat, updatedAt: nat, replacedAt: nat)

  function Since(now: nat, at: nat): nat {
    if now < at then 0 else now - at
  }

  predicate InWindow(last: Option<Replacement>, chainNext: u64, now: nat) {
    last.Some? && last.value.nonce == chainNext && Since(now, last.value.at) < STALL_REPLACE_WINDOW_MS
  }

  predicate IsRebroadcast(r: Record, hash: Hash) {
    r.status == RebroadcastAccepted && hash in r.txHashes
  }

  /** What an accepted cancel adds to the life of its nonce. */
  function SignStep(a: Answers, fees: CancelFees): Step
    requires a.signed.Some?
  {
    Step(Sign(a.signed.value, Some(fees.maxFee), Some(fees.tip)), a.signedAt)
  }

  function AcceptStep(a: Answers): Step
    requires a.signed.Some?
  {
    Step(Advance(a.signed.value, RebroadcastAccepted), a.updatedAt)
  }

  function BumpBps(tipBumpBps: u32): u32 {
    Max(tipBumpBps, RBF_MIN_BUMP_BPS)
  }

  // ---------- Lives under pruning ----------

  /** Pruning below a nonce does not touch what the log says of it. */
  lemma PruneKeepsHistory(log: seq<Event>, chainNext: u64, n: u64)
    requires chainNext <= n
    ensures History(log + [Pruned(chainNext)], n) == History(log, n)
  {
    assert (log + [Pruned(chainNext)])[..|log|] == log;
  }

  /** The head of the queue is a candidate exactly when its own log leaves it unresolved. */
  lemma HeadIsCandidateIff(log: seq<Event>, chainNext: u64, found: Option<Snapshot>)
    requires found.None? ==> forall n: u64 | chainNext <= n :: !UnresolvedIn(log, n)
    requires found.Some? ==>
               && chainNext <= found.value.nonce && UnresolvedIn(log, found.value.nonce)
               && forall m: u64 | chainNext <= m < found.value.nonce :: !UnresolvedIn(log, m)
    ensures found.Some? && found.value.nonce == chainNext <==> UnresolvedIn(log, chainNext)
  {
  }

  // ---------- One call ----------

  class StallReplacer {
    const tracker: Nonce.NonceTracker
    const ledger: InflightNonceLedger
    var lastReplace: Option<Replacement>

    constructor (tracker: Nonce.NonceTracker, ledger: InflightNonceLedger)
      ensures this.tracker == tracker && this.ledger == ledger && lastReplace == None
    {
      this.tracker, this.ledger, lastReplace := tracker, ledger, None;
    }

    /** The log leaves the nonce unresolved, and its attempt started long enough ago. */
    ghost predicate IsStranded(chainNext: u64, now: nat)
      reads ledger
    {
      && UnresolvedIn(ledger.log, chainNext)
      && chainNext in ledger.records
      && Since(now, ledger.records[chainNext].firstSeen) >= STALL_REPLACE_MIN_HEAD_AGE_MS
    }

    /** Every guard that must pass before a cancel is signed. */
    ghost predicate Admits(chainNext: u64, a: Answers)
      reads this, ledger, tracker
    {
      && !InWindow(lastReplace, chainNext, a.now)
      && a.chainLatest == Some(chainNext)
      && IsStranded(chainNext, a.snapshotAt)
      && a.networkTip.Some? && a.networkGas.Some?
      && chainNext < tracker.current
    }

    /** The fees of a cancel of the head do not saturate. */
    ghost predicate CancelFitsHead(chainNext: u64, a: Answers, bps: u32)
      reads ledger
    {
      && chainNext in ledger.records && a.networkTip.Some? && a.networkGas.Some?
      && CancelFits(a.networkTip.value, a.networkGas.value, ledger.records[chainNext].maxPriority,
                    ledger.records[chainNext].maxFee, bps)
    }

    /**
     * A cancel is recorded exactly when every guard admits it and an endpoint accepted it; in every
     * other case nothing is recorded, so the fee basis of the next attempt is what it was.
     */
    method ReplaceStalledNonce(chainNext: u64, tipBumpBps: u32, a: Answers)
      returns (outcome: Outcome, ghost fees: CancelFees)
      requires ledger.Valid()
      modifies this, ledger
      ensures ledger.Valid()
      ensures outcome.Cancelled? <==>
              && a.signed.Some? && a.accepted
              && a.chainLatest == Some(chainNext) && chainNext < tracker.current
              && a.networkTip.Some? && a.networkGas.Some?
              && !(old(lastReplace).Some? && old(lastReplace).value.nonce == chainNext
                   && a.now < old(lastReplace).value.at + 3_000)
              && old(UnresolvedIn(ledger.log, chainNext)) && chainNext in old(ledger.records)
              && a.snapshotAt >= old(ledger.records)[chainNext].firstSeen + 30_000
      ensures old(InWindow(lastReplace, chainNext, a.now)) ==> outcome == NotStalled && ledger.log == old(ledger.log)
      ensures !outcome.Cancelled? ==>
                && lastReplace == old(lastReplace)
                && (ledger.log == old(ledger.log) || ledger.log == old(ledger.log) + [Pruned(chainNext)])
      ensures outcome.Cancelled? ==>
                && outcome == Cancelled(chainNext, a.signed.value)
                && lastReplace == Some(Replacement(chainNext, a.replacedAt))
                && (chainNext in ledger.records ==> IsRebroadcast(ledger.records[chainNext], a.signed.value))
                && var record := old(ledger.records)[chainNext];
                && fees == ComputeCancelFees(a.networkTip.value, a.networkGas.value, record.maxPriority, record.maxFee,
                                             BumpBps(tipBumpBps))
                && old(ledger.log) + [Pruned(chainNext)]
                   + [On(chainNext, SignStep(a, fees))] <= ledger.log
      ensures outcome.Cancelled? && old(CancelFitsHead(chainNext, a, BumpBps(tipBumpBps))) ==>
                IsCancel(old(History(ledger.log, chainNext)), SignStep(a, fees), tipBumpBps)
      ensures outcome.Cancelled? && chainNext in ledger.records ==>
                History(ledger.log, chainNext) == old(History(ledger.log, chainNext)) + [SignStep(a, fees), AcceptStep(a)]
      ensures outcome.Cancelled? && chainNext in ledger.records && old(CancelFitsHead(chainNext, a, BumpBps(tipBumpBps))) ==>
                IsCall(Call(old(ledger.log), old(ledger.log), ledger.log, tipBumpBps, SignStep(a, fees)), chainNext)
    {
      var refusal, bid := PrepareCancel(chainNext, tipBumpBps, a);
      fees := bid;
      if refusal.Some? {
        return refusal.value, fees;
      }
      if a.signed.None? || !a.accepted {
        return Failed, fees;
      }
      PruneKeepsHistory(old(ledger.log), chainNext, chainNext);
      RecordCancel(chainNext, bid, a);
      return Cancelled(chainNext, a.signed.value), fees;
    }

    /**
     * Everything up to signing: the fees of the cancel, or why there is none. They are those of a
     * cancel over the ledger as it was read, whatever it records before `RecordCancel`.
     */
    method PrepareCancel(chainNext: u64, tipBumpBps: u32, a: Answers) returns (refusal: Option<Outcome>, bid: CancelFees)
      requires ledger.Valid()
      modifies ledger
      ensures ledger.Valid()
      ensures refusal.None? <==> old(Admits(chainNext, a))
      ensures refusal.Some? ==> !refusal.value.Cancelled?
      ensures old(InWindow(lastReplace, chainNext, a.now)) ==> refusal == Some(NotStalled) && ledger.log == old(ledger.log)
      ensures ledger.log == old(ledger.log) + [Pruned(chainNext)] || (refusal.Some? && ledger.log == old(ledger.log))
      ensures refusal.None? ==>
                && History(ledger.log, chainNext) == old(History(ledger.log, chainNext)) != []
                && var record := old(ledger.records)[chainNext];
                   bid == ComputeCancelFees(a.networkTip.value, a.networkGas.value, record.maxPriority, record.maxFee,
                                            BumpBps(tipBumpBps))
      ensures refusal.None? && a.signed.Some? && old(CancelFitsHead(chainNext, a, BumpBps(tipBumpBps))) ==>
                IsCancel(old(History(ledger.log, chainNext)), SignStep(a, bid), tipBumpBps)
    {
      bid := CancelFees(0, 0);
      if InWindow(lastReplace, chainNext, a.now) {
        return Some(NotStalled), bid;
      }
      if a.chainLatest.None? {
        return Some(Failed), bid;
      }
      if a.chainLatest.value != chainNext {
        return Some(NotStalled), bid;
      }
      var stranded, head := FindStranded(chainNext, a.snapshotAt);
      if stranded.Some? {
        return stranded, bid;
      }
      if a.networkTip.None? || a.networkGas.None? {
        return Some(Failed), bid;
      }
      if tracker.current <= chainNext {
        return Some(RaceAborted), bid;
      }
      bid := ComputeCancelFees(a.networkTip.value, a.networkGas.value, head.maxPriority, head.maxFee,
                               BumpBps(tipBumpBps));
      PruneKeepsHistory(old(ledger.log), chainNext, chainNext);
      if a.signed.Some? && old(CancelFitsHead(chainNext, a, BumpBps(tipBumpBps))) {
        CallRecordsCancel(old(ledger.records), old(ledger.log), chainNext, a, tipBumpBps, SignStep(a, bid));
      }
      return None, bid;
    }

    /** The record of the stuck head, or why nothing may be cancelled. */
    method FindStranded(chainNext: u64, now: nat) returns (refusal: Option<Outcome>, head: Record)
      requires ledger.Valid()
      modifies ledger
      ensures ledger.Valid() && ledger.log == old(ledger.log) + [Pruned(chainNext)]
      ensures refusal.Some? ==> refusal.value == NoCandidate || refusal.value == NotStalled
      ensures refusal.None? <==> old(IsStranded(chainNext, now))
      ensures refusal.None? ==> head == old(ledger.records)[chainNext]
    {
      ghost var records, log := ledger.records, ledger.log;
      UnresolvedAgrees(records, log);
      head := Record({}, Status.Released, 0, 0, None, None, None);
      ledger.PruneConsumed(chainNext);
      var candidate := ledger.LowestUnresolvedAtOrAbove(chainNext, now);
      HeadIsCandidateIff(ledger.log, chainNext, candidate);
      PruneKeepsHistory(log, chainNext, chainNext);
      if candidate.None? || candidate.value.nonce != chainNext {
        return Some(NoCandidate), head;
      }
      head := candidate.value.record;
      if candidate.value.age < STALL_REPLACE_MIN_HEAD_AGE_MS {
        return Some(NotStalled), head;
      }
      refusal := None;
    }

    /** Records the cancel and its acceptance; if the nonce is still tracked, its life grew by these two. */
    method RecordCancel(chainNext: u64, bid: CancelFees, a: Answers)
      requires ledger.Valid() && a.signed.Some?
      modifies this, ledger
      ensures ledger.Valid() && lastReplace == Some(Replacement(chainNext, a.replacedAt))
      ensures chainNext in ledger.records ==> IsRebroadcast(ledger.records[chainNext], a.signed.value)
      ensures old(ledger.log) + [On(chainNext, SignStep(a, bid))] <= ledger.log
      ensures chainNext in ledger.records ==>
                History(ledger.log, chainNext) == old(History(ledger.log, chainNext)) + [SignStep(a, bid), AcceptStep(a)]
    {
      SignCancel(chainNext, bid, a);
      ghost var recorded := ledger.log;
      AcceptCancel(chainNext, a.signed.value, a.updatedAt);
      lastReplace := Some(Replacement(chainNext, a.replacedAt));
      PrefixesChain(old(ledger.log) + [On(chainNext, SignStep(a, bid))], recorded, ledger.log);
      assert old(History(ledger.log, chainNext)) + [SignStep(a, bid)] + [AcceptStep(a)] ==
             old(History(ledger.log, chainNext)) + [SignStep(a, bid), AcceptStep(a)];
    }

    /** `record_signed` for the cancel; the nonce may be evicted at once by a ledger that is full of higher ones. */
    method SignCancel(chainNext: u64, bid: CancelFees, a: Answers)
      requires ledger.Valid() && a.signed.Some?
      modifies ledger
      ensures ledger.Valid() && old(ledger.log) + [On(chainNext, SignStep(a, bid))] <= ledger.log
      ensures if chainNext in ledger.records
              then History(ledger.log, chainNext) == old(History(ledger.log, chainNext)) + [SignStep(a, bid)]
              else |ledger.records| == MAX_TRACKED_NONCES && forall m | m in ledger.records :: chainNext < m
    {
      ledger.RecordSigned(chainNext, a.signed.value, Some(bid.maxFee), Some(bid.tip), a.signedAt);
    }

    /** `mark_rebroadcast_accepted`: a nonce that the signature did not get tracked is not tracked after it either. */
    method AcceptCancel(chainNext: u64, hash: Hash, now: nat)
      requires ledger.Valid()
      requires chainNext !in ledger.records ==>
                 |ledger.records| == MAX_TRACKED_NONCES && forall m | m in ledger.records :: chainNext < m
      modifies ledger
      ensures ledger.Valid() && old(ledger.log) <= ledger.log
      ensures chainNext in ledger.records ==>
                && chainNext in old(ledger.records)
                && IsRebroadcast(ledger.records[chainNext], hash)
                && History(ledger.log, chainNext) ==
                   old(History(ledger.log, chainNext)) + [Step(Advance(hash, RebroadcastAccepted), now)]
    {
      ledger.Update(chainNext, hash, RebroadcastAccepted, now);
      if chainNext !in old(ledger.records) {
        EvictedAgain(old(ledger.records), ledger.records, chainNext,
                     Progressed(NewRecord(hash, None, None, now), hash, RebroadcastAccepted));
      }
    }
  }

  lemma PrefixesChain(a: seq<Event>, b: seq<Event>, c: seq<Event>)
    requires a <= b
    requires b <= c
    ensures a <= c
  {
  }

  // ---------- What a cancel outbids ----------

  /**
   * Step `e` is a cancel, asked for with `tipBumpBps`, that was admitted after life `h`: its fees are
   * computed, without saturation, from the ledger's record of `h`.
   */
  ghost predicate IsCancel(h: Life, e: Step, tipBumpBps: u32) {
    e.act.Sign? && exists r: Record, networkTip: u256, networkGas: u256 ::
      Describes(h, r) && IsCancelOver(r, e, networkTip, networkGas, BumpBps(tipBumpBps))
  }

  ghost predicate IsCancelOver(r: Record, e: Step, networkTip: u256, networkGas: u256, bps: u32)
    requires e.act.Sign?
  {
    var fees := ComputeCancelFees(networkTip, networkGas, r.maxPriority, r.maxFee, bps);
    && CancelFits(networkTip, networkGas, r.maxPriority, r.maxFee, bps)
    && e.act.maxPriority == Some(fees.tip) && e.act.maxFee == Some(fees.maxFee)
  }

  /** An accepted call records such a cancel, as long as its fees do not saturate. */
  lemma CallRecordsCancel(records: map<u64, Record>, log: seq<Event>, chainNext: u64, a: Answers, tipBumpBps: u32, e: Step)
    requires Agrees(records, log) && chainNext in records && a.networkTip.Some? && a.networkGas.Some?
    requires e.act.Sign? && IsCancelOver(records[chainNext], e, a.networkTip.value, a.networkGas.value, BumpBps(tipBumpBps))
    ensures IsCancel(History(log, chainNext), e, tipBumpBps)
  {
    assert Describes(History(log, chainNext), records[chainNext]);
  }

  /**
   * A cancel outbids every fee its nonce was ever signed with, the tip and the max fee alike, by the
   * bump asked for or the minimum bump, whichever is larger.
   */
  lemma CancelOutbidsAll(h: Life, e: Step, tipBumpBps: u32, i: nat, priority: bool)
    requires IsCancel(h, e, tipBumpBps) && i < |h| && FeeOf(h[i], priority).Some?
    ensures FeeOf(e, priority).Some?
    ensures Outbids(FeeOf(e, priority).value, FeeOf(h[i], priority).value, Max(tipBumpBps, RBF_MIN_BUMP_BPS))
  {
    var r: Record, networkTip: u256, networkGas: u256 :|
      Describes(h, r) && IsCancelOver(r, e, networkTip, networkGas, BumpBps(tipBumpBps));
    CancelOutbids(networkTip, networkGas, r.maxPriority, r.maxFee, BumpBps(tipBumpBps));
    var m := if priority then r.maxPriority else r.maxFee;
    assert IsMaxFee(m, h, priority);
    OutbidsLess(FeeOf(e, priority).value, OrZero(m), FeeOf(h[i], priority).value, BumpBps(tipBumpBps));
  }

  /** In figures, for both fees at once. */
  lemma CancelOutbidsBoth(h: Life, e: Step, tipBumpBps: u32, i: nat)
    requires IsCancel(h, e, tipBumpBps) && i < |h| && h[i].act.Sign?
    ensures e.act.Sign?
    ensures h[i].act.maxFee.Some? ==>
              && e.act.maxFee.Some?
              && e.act.maxFee.value * 10_000 >= h[i].act.maxFee.value * (10_000 + Max(tipBumpBps, 1250))
    ensures h[i].act.maxPriority.Some? ==>
              && e.act.maxPriority.Some?
              && e.act.maxPriority.value * 10_000 >= h[i].act.maxPriority.value * (10_000 + Max(tipBumpBps, 1250))
  {
    if h[i].act.maxFee.Some? {
      CancelOutbidsAll(h, e, tipBumpBps, i, false);
    }
    if h[i].act.maxPriority.Some? {
      CancelOutbidsAll(h, e, tipBumpBps, i, true);
    }
  }

  lemma CancelIsPriced(h: Life, e: Step, tipBumpBps: u32, priority: bool)
    requires IsCancel(h, e, tipBumpBps)
    ensures FeeOf(e, priority).Some?
  {
  }

  // ---------- Runs of cancels ----------

  function Pow(b: nat, k: nat): nat {
    if k == 0 then 1 else b * Pow(b, k - 1)
  }

  /** What cancels with these bumps multiply a fee by, in units of 10000 to the number of cancels. */
  function Growth(bumps: seq<u32>): nat {
    if bumps == [] then 1 else (BASIS + BumpBps(bumps[|bumps| - 1])) * Growth(bumps[..|bumps| - 1])
  }

  /** However small the bumps asked for, k cancels multiply by at least 1.125 to the k. */
  lemma {:induction false} GrowthIsAtLeast(bumps: seq<u32>)
    ensures Growth(bumps) >= Pow(BASIS + RBF_MIN_BUMP_BPS, |bumps|)
    decreases |bumps|
  {
    if bumps != [] {
      var k := |bumps| - 1;
      GrowthIsAtLeast(bumps[..k]);
      ProductIsMonotone(BASIS + RBF_MIN_BUMP_BPS, BASIS + BumpBps(bumps[k]),
                        Pow(BASIS + RBF_MIN_BUMP_BPS, k), Growth(bumps[..k]));
    }
  }

  /** In units of 10000 to the k, `fee` is at least `growth` times `start`. */
  ghost predicate Grew(fee: nat, start: nat, growth: nat, k: nat) {
    fee * Pow(BASIS, k) >= start * growth
  }

  /** Fees each of which outbids the one before it multiply. */
  lemma {:induction false} ChainGrows(fees: seq<nat>, bumps: seq<u32>)
    requires |fees| == |bumps| + 1
    requires forall k | 0 <= k < |bumps| :: Outbids(fees[k + 1], fees[k], BumpBps(bumps[k]))
    ensures Grew(fees[|bumps|], fees[0], Growth(bumps), |bumps|)
    decreases |bumps|
  {
    if bumps != [] {
      var k := |bumps| - 1;
      ChainGrows(fees[..k + 1], bumps[..k]);
      Compounds(fees[k + 1], fees[k], fees[0], BASIS + BumpBps(bumps[k]), Growth(bumps[..k]), k);
    }
  }

  /** The step at `c` is a cancel, and comes after the one at `prior`. */
  ghost predicate IsCancelAt(h: Life, prior: nat, c: nat, tipBumpBps: u32) {
    prior < c < |h| && IsCancel(h[..c], h[c], tipBumpBps)
  }

  /** After the first, the steps at these positions are cancels, and `bumps` what each of them asked for. */
  ghost predicate AreCancels(h: Life, positions: seq<nat>, bumps: seq<u32>) {
    && |positions| == |bumps| + 1 && positions[0] < |h|
    && forall k | 0 <= k < |bumps| :: IsCancelAt(h, positions[k], positions[k + 1], bumps[k])
  }

  /**
   * Accepted cancels multiply both fees by the product of their bumps, from any transaction signed
   * before the first of them, whatever else was signed, accepted, released or committed in between.
   */
  lemma CancelsEscalate(h: Life, positions: seq<nat>, bumps: seq<u32>, priority: bool)
    requires AreCancels(h, positions, bumps) && FeeOf(h[positions[0]], priority).Some?
    ensures var last := positions[|bumps|];
            && last < |h| && FeeOf(h[last], priority).Some?
            && Grew(FeeOf(h[last], priority).value, FeeOf(h[positions[0]], priority).value, Growth(bumps), |bumps|)
  {
    forall k | 0 <= k < |positions| ensures positions[k] < |h| && FeeOf(h[positions[k]], priority).Some? {
      if k > 0 {
        assert IsCancelAt(h, positions[k - 1], positions[k], bumps[k - 1]);
        CancelIsPriced(h[..positions[k]], h[positions[k]], bumps[k - 1], priority);
      }
    }
    var fees := seq(|positions|, k requires 0 <= k < |positions| => FeeOf(h[positions[k]], priority).value);
    forall k | 0 <= k < |bumps| ensures Outbids(fees[k + 1], fees[k], BumpBps(bumps[k])) {
      assert IsCancelAt(h, positions[k], positions[k + 1], bumps[k]);
      CancelOutbidsAll(h[..positions[k + 1]], h[positions[k + 1]], bumps[k], positions[k], priority);
    }
    ChainGrows(fees, bumps);
  }

  /** Such lives occur: a signature, and a cancel over it with an idle network. */
  lemma CancelsOccur() returns (h: Life)
    ensures |h| == 2 && FeeOf(h[0], true) == Some(10) && FeeOf(h[0], false) == Some(100)
    ensures AreCancels(h, [0, 1], [0]) && FeeOf(h[1], true) == Some(12) && FeeOf(h[1], false) == Some(113)
  {
    var signed := Step(Sign(0, Some(100), Some(10)), 0);
    var cancel := Step(Sign(1, Some(113), Some(12)), 60_000);
    var r := Record({0}, Signed, 0, 0, None, Some(100), Some(10));
    FirstDescribes(signed, r);
    assert BumpBps(0) == RBF_MIN_BUMP_BPS;
    assert IsCancelOver(r, cancel, 0, 0, BumpBps(0));
    h := [signed, cancel];
    assert h[..1] == [signed];
    assert IsCancelAt(h, 0, 1, 0);
  }

  lemma Compounds(bid: nat, prior: nat, start: nat, up: nat, growth: nat, k: nat)
    requires bid * BASIS >= prior * up
    requires prior * Pow(BASIS, k) >= start * growth
    ensures bid * Pow(BASIS, k + 1) >= start * (up * growth)
  {
    var d := Pow(BASIS, k);
    calc {
      bid * (BASIS * d);
    == { assert bid * (BASIS * d) == (bid * BASIS) * d; }
      (bid * BASIS) * d;
    >= { ProductIsMonotone(prior * up, bid * BASIS, d, d); }
      (prior * up) * d;
    == { assert (prior * up) * d == (prior * d) * up; }
      (prior * d) * up;
    >= { ProductIsMonotone(start * growth, prior * d, up, up); }
      (start * growth) * up;
    == { assert (start * growth) * up == start * (up * growth); }
      start * (up * growth);
    }
  }

  // ---------- Runs of calls ----------

  /** The log went on without the nonce being evicted or pruned. */
  ghost predicate Continues(log: seq<Event>, log': seq<Event>, n: u64) {
    log <= log' && forall k | |log| <= k < |log'| :: !Removes(log'[k], n)
  }

  /**
   * One accepted call: the log when the fees were computed, the logs before and after the cancel was
   * recorded, the bump asked for, and the signature recorded. Other calls may write to the ledger
   * between the first two.
   */
  datatype Call = Call(seen: seq<Event>, before: seq<Event>, after: seq<Event>, tipBumpBps: u32, sign: Step)

  /** What `PrepareCancel` and `RecordCancel` promise of an accepted call whose nonce is still tracked. */
  ghost predicate IsCall(c: Call, n: u64) {
    && History(c.seen, n) != [] && IsCancel(History(c.seen, n), c.sign, c.tipBumpBps)
    && Continues(c.seen, c.before, n)
    && History(c.before, n) + [c.sign] <= History(c.after, n)
  }

  /** Accepted calls for one nonce, one after the other, with any other ledger traffic in between. */
  ghost predicate AreCalls(calls: seq<Call>, n: u64) {
    && (forall k | 0 <= k < |calls| :: IsCall(calls[k], n))
    && (forall k | 0 < k < |calls| :: Continues(calls[k - 1].after, calls[k].seen, n))
  }

  function Bumps(calls: seq<Call>): seq<u32> {
    seq(|calls|, k requires 0 <= k < |calls| => calls[k].tipBumpBps)
  }

  lemma {:induction false} ContinuedLifeGrows(log: seq<Event>, log': seq<Event>, n: u64)
    requires Continues(log, log', n)
    ensures History(log, n) <= History(log', n)
    decreases |log'|
  {
    if |log'| == |log| {
      assert log == log';
    } else {
      var front := log'[..|log'| - 1];
      assert Continues(log, front, n);
      ContinuedLifeGrows(log, front, n);
      assert !Removes(log'[|log'| - 1], n);
    }
  }

  /**
   * Accepted calls of `ReplaceStalledNonce` for one nonce multiply both fees by the product of their
   * bumps, from any transaction that was signed at the nonce before the first call, whatever else the
   * ledger records in between.
   */
  lemma CallsEscalate(calls: seq<Call>, n: u64, first: nat, priority: bool)
    requires calls != [] && AreCalls(calls, n)
    requires first < |History(calls[0].seen, n)| && FeeOf(History(calls[0].seen, n)[first], priority).Some?
    ensures var start, last := History(calls[0].seen, n)[first], calls[|calls| - 1].sign;
            && FeeOf(last, priority).Some?
            && Grew(FeeOf(last, priority).value, FeeOf(start, priority).value, Growth(Bumps(calls)), |calls|)
  {
    var signs := Signs(calls, n, first);
    forall k | 0 <= k < |signs| ensures FeeOf(signs[k], priority).Some? {
      if k > 0 {
        assert IsCall(calls[k - 1], n);
        CancelIsPriced(History(calls[k - 1].seen, n), signs[k], calls[k - 1].tipBumpBps, priority);
      }
    }
    var fees := seq(|signs|, k requires 0 <= k < |signs| => FeeOf(signs[k], priority).value);
    forall k | 0 <= k < |calls| ensures Outbids(fees[k + 1], fees[k], BumpBps(Bumps(calls)[k])) {
      var prior := PriorSign(calls, n, first, k);
      CancelOutbidsAll(History(calls[k].seen, n), signs[k + 1], calls[k].tipBumpBps, prior, priority);
    }
    ChainGrows(fees, Bumps(calls));
  }

  /** So k calls multiply both fees by at least 1.125 to the k, whatever bumps they ask for. */
  lemma CallsMultiply(calls: seq<Call>, n: u64, first: nat)
    requires calls != [] && AreCalls(calls, n)
    requires first < |History(calls[0].seen, n)| && History(calls[0].seen, n)[first].act.Sign?
    ensures var start, last, k := History(calls[0].seen, n)[first].act, calls[|calls| - 1].sign.act, |calls|;
            && last.Sign?
            && (start.maxFee.Some? ==>
                  last.maxFee.Some? && last.maxFee.value * Pow(10_000, k) >= start.maxFee.value * Pow(11_250, k))
            && (start.maxPriority.Some? ==>
                  && last.maxPriority.Some?
                  && last.maxPriority.value * Pow(10_000, k) >= start.maxPriority.value * Pow(11_250, k))
  {
    var start := History(calls[0].seen, n)[first];
    assert IsCall(calls[|calls| - 1], n);
    if start.act.maxFee.Some? {
      CallsMultiplyFee(calls, n, first, false);
    }
    if start.act.maxPriority.Some? {
      CallsMultiplyFee(calls, n, first, true);
    }
  }

  lemma CallsMultiplyFee(calls: seq<Call>, n: u64, first: nat, priority: bool)
    requires calls != [] && AreCalls(calls, n)
    requires first < |History(calls[0].seen, n)| && FeeOf(History(calls[0].seen, n)[first], priority).Some?
    ensures var start, last := History(calls[0].seen, n)[first], calls[|calls| - 1].sign;
            && FeeOf(last, priority).Some?
            && Grew(FeeOf(last, priority).value, FeeOf(start, priority).value,
                    Pow(BASIS + RBF_MIN_BUMP_BPS, |calls|), |calls|)
  {
    var start := FeeOf(History(calls[0].seen, n)[first], priority).value;
    CallsEscalate(calls, n, first, priority);
    GrowthIsAtLeast(Bumps(calls));
    ProductIsMonotone(start, start, Pow(BASIS + RBF_MIN_BUMP_BPS, |calls|), Growth(Bumps(calls)));
  }

  /** The given signature, and then that of each call. */
  ghost function Signs(calls: seq<Call>, n: u64, first: nat): (signs: seq<Step>)
    requires calls != [] && first < |History(calls[0].seen, n)|
    ensures |signs| == |calls| + 1
  {
    [History(calls[0].seen, n)[first]] + seq(|calls|, k requires 0 <= k < |calls| => calls[k].sign)
  }

  /** Where a call finds the signature of the call before it, or the given one. */
  lemma PriorSign(calls: seq<Call>, n: u64, first: nat, k: nat) returns (prior: nat)
    requires k < |calls| && AreCalls(calls, n)
    requires first < |History(calls[0].seen, n)|
    ensures IsCall(calls[k], n) && Signs(calls, n, first)[k + 1] == calls[k].sign
    ensures prior < |History(calls[k].seen, n)| && History(calls[k].seen, n)[prior] == Signs(calls, n, first)[k]
  {
    if k == 0 {
      prior := first;
    } else {
      assert IsCall(calls[k - 1], n) && Continues(calls[k - 1].after, calls[k].seen, n);
      ContinuedLifeGrows(calls[k - 1].after, calls[k].seen, n);
      prior := |History(calls[k - 1].before, n)|;
      assert History(calls[k - 1].after, n)[prior] == calls[k - 1].sign;
    }
  }
}
