/**
 * The wallet's signing and sending methods, one call at a time, over the tracker and the ledger. What
 * the signer, the endpoints and the chain answer are inputs. Runs in which calls interleave are the
 * subject of `Ownership`.
 */
module Wallet {
  import opened Words
  import Nonce
  import Ledger
  import Verdicts
  import Broadcast

  type Hash = Ledger.Hash

  /** What building and signing a request yields. */
  datatype Signature = Signature(hash: Hash, maxFee: Option<u256>, maxPriority: Option<u256>) | SignError

  datatype SignedTx = SignedTx(nonce: u64, signature: Signature)

  type Reception = Broadcast.BatchResult

  /** The nonces the chain reports under its two tags; `None` when the query fails. */
  datatype ChainNonces = ChainNonces(pending: Option<u64>, latest: Option<u64>)

  /** The chain state a failed broadcast asks for, as far as the chain reports it. */
  function ResyncTo(error: Verdicts.WalletError, chain: ChainNonces): Option<u64> {
    match Verdicts.NonceSyncBlock(error)
    case None => None
    case Some(tag) => if tag.Pending? then chain.pending else chain.latest
  }

  /**
   * After a failed broadcast, one rejection that says too low decides for the pending nonce, and
   * otherwise one that says too high for the latest; nothing else moves the tracker.
   */
  lemma AggregateResyncs(error: Verdicts.WalletError, chain: ChainNonces)
    requires error.BroadcastFailed?
    ensures ResyncTo(error, chain) ==
            if Verdicts.SomeRejectionSays(error.endpoints, Verdicts.TOO_LOW) then chain.pending
            else if Verdicts.SomeRejectionSays(error.endpoints, Verdicts.TOO_HIGH) then chain.latest
            else None
  {
    Verdicts.AggregateSyncIff(error);
  }

  function SignEvent(tx: SignedTx, at: nat): Ledger.Event
    requires tx.signature.Signature?
  {
    Ledger.On(tx.nonce, Ledger.Step(Ledger.Sign(tx.signature.hash, tx.signature.maxFee, tx.signature.maxPriority), at))
  }

  /** A context holds at most one reservation, and none once it is used up. */
  class PreheatedContext {
    var used: bool
    var reservation: Nonce.ReservedNonce?
    /** Nonces ever bound to this context, and transactions ever signed with it. */
    ghost var bound: set<nat>
    ghost var signatures: nat

    ghost predicate Valid()
      reads this
    {
      && signatures <= 1 && (signatures == 1 ==> used)
      && (reservation != null ==> bound == {reservation.nonce})
      && (!used && reservation == null ==> bound == {})
      && |bound| <= 1
    }

    constructor (reservation: Nonce.ReservedNonce?)
      ensures Valid() && this.reservation == reservation && !used && signatures == 0
    {
      used, this.reservation, signatures := false, reservation, 0;
      bound := if reservation == null then {} else {reservation.nonce};
    }

    /** True for the first caller only. */
    method MarkUsed() returns (first: bool)
      requires Valid()
      modifies this`used
      ensures first <==> !old(used)
      ensures first ==> signatures == 0 && (reservation == null ==> bound == {})
      ensures Valid()
      ensures used
    {
      first := !used;
      used := true;
    }

    method ReleaseReservation() returns (released: bool)
      requires Valid() && (reservation != null ==> reservation.tracker.Valid())
      modifies this`used, this`reservation, reservation, if reservation == null then {} else {reservation.tracker}
      ensures Valid() && used && reservation == null
      ensures released <==> old(reservation) != null && old(reservation.state) == Nonce.Held
      ensures old(reservation) != null ==> var r := old(reservation); var tracker := r.tracker;
                && tracker.Valid() && tracker.exhausted == old(tracker.exhausted)
                && tracker.Model() == if released then old(tracker.Model()).Return(r.nonce) else old(tracker.Model())
    {
      used := true;
      released := false;
      if reservation != null {
        released := reservation.Release();
        reservation := null;
      }
    }

    method CommitReservation()
      requires Valid() && (reservation != null ==> reservation.tracker.Valid())
      modifies this`used, this`reservation, reservation, if reservation == null then {} else {reservation.tracker}
      ensures Valid() && used && reservation == null
      ensures old(reservation) != null ==> var tracker := old(reservation).tracker;
                && tracker.Valid() && tracker.exhausted == old(tracker.exhausted) && tracker.Model() == old(tracker.Model())
      ensures old(reservation) != null
              && (old(reservation.state) == Nonce.Held || old(reservation.state) == Nonce.Broadcasting) ==>
                old(reservation).state == Nonce.Committed
    {
      used := true;
      if reservation != null {
        var committed := reservation.Commit();
        reservation := null;
      }
    }

    method ReleaseRejectedBroadcast() returns (released: bool)
      requires Valid() && (reservation != null ==> reservation.tracker.Valid())
      modifies this`used, this`reservation, reservation, if reservation == null then {} else {reservation.tracker}
      ensures Valid() && used && reservation == null
      ensures released <==> old(reservation) != null && old(reservation.state) == Nonce.Broadcasting
      ensures old(reservation) != null ==> var r := old(reservation); var tracker := r.tracker;
                && tracker.Valid() && tracker.exhausted == old(tracker.exhausted)
                && tracker.Model() == if released then old(tracker.Model()).Return(r.nonce) else old(tracker.Model())
    {
      used := true;
      released := false;
      if reservation != null {
        released := reservation.ReleaseRejectedBroadcast();
        reservation := null;
      }
    }
  }

  class FastWallet {
    const tracker: Nonce.NonceTracker
    const ledger: Ledger.InflightNonceLedger

    ghost predicate Valid()
      reads tracker, ledger
    {
      tracker.Valid() && ledger.Valid()
    }

    constructor (tracker: Nonce.NonceTracker, ledger: Ledger.InflightNonceLedger)
      ensures this.tracker == tracker && this.ledger == ledger
    {
      this.tracker, this.ledger := tracker, ledger;
    }

    // ---------- Automatic nonces ----------

    /** Sign with the least free nonce. A failed signing gives the nonce back, as if it had not been taken. */
    method Sign(signature: Signature, now: nat) returns (tx: Option<SignedTx>)
      requires Valid()
      modifies tracker, ledger
      ensures Valid()
      ensures tx.Some? <==> signature.Signature?
      ensures tx.Some? ==>
                && tx.value.signature == signature
                && (!tracker.exhausted ==> old(tracker.Model()).IsLeastFree(tx.value.nonce))
                && tracker.Model() == old(tracker.Model()).Issue(tx.value.nonce)
                && old(ledger.log) + [SignEvent(tx.value, now)] <= ledger.log
      ensures tx.None? && !tracker.exhausted ==> tracker.Model() == old(tracker.Model())
      ensures old(tracker.exhausted) ==> tracker.exhausted
    {
      var nonce := tracker.GetAndIncrement();
      tx := RecordSignedOrRelease(nonce, signature, now);
      if !tracker.exhausted && tx.None? {
        Nonce.ReturnUndoesIssue(old(tracker.Model()), nonce);
      }
    }

    method RecordSignedOrRelease(nonce: u64, signature: Signature, now: nat) returns (tx: Option<SignedTx>)
      requires Valid()
      modifies tracker, ledger
      ensures Valid() && tracker.exhausted == old(tracker.exhausted)
      ensures tx == if signature.Signature? then Some(SignedTx(nonce, signature)) else None
      ensures tx.Some? ==> tracker.Model() == old(tracker.Model())
                           && old(ledger.log) + [SignEvent(tx.value, now)] <= ledger.log
      ensures tx.None? ==>
                && tracker.Model() == old(tracker.Model()).Return(nonce)
                && ledger.log == old(ledger.log) + [Ledger.On(nonce, Ledger.Step(Ledger.Release("sign_error"), now))]
    {
      if signature.Signature? {
        ledger.RecordSigned(nonce, signature.hash, signature.maxFee, signature.maxPriority, now);
        return Some(SignedTx(nonce, signature));
      }
      tracker.Release(nonce);
      ledger.MarkReleased(nonce, "sign_error", now);
      return None;
    }

    /** Move the tracker forward and forget consumed nonces. */
    method SyncNonce(chainNonce: u64)
      requires Valid()
      modifies tracker, ledger
      ensures Valid() && tracker.exhausted == old(tracker.exhausted)
      ensures tracker.Model() == old(tracker.Model()).SyncTo(chainNonce)
      ensures ledger.log == old(ledger.log) + [Ledger.Pruned(chainNonce)]
      ensures forall n | n in ledger.records :: n in old(ledger.records) && ledger.records[n] == old(ledger.records)[n]
    {
      var advanced := tracker.SyncForward(chainNonce);
      ledger.PruneConsumed(chainNonce);
    }

    /** Resynchronise if the error calls for it and the chain answers. */
    method RecoverNonceError(error: Verdicts.WalletError, chain: ChainNonces)
      requires Valid()
      modifies tracker, ledger
      ensures Valid() && tracker.exhausted == old(tracker.exhausted)
      ensures var target := ResyncTo(error, chain);
              tracker.Model() == if target.Some? then old(tracker.Model()).SyncTo(target.value) else old(tracker.Model())
      ensures old(ledger.log) <= ledger.log
      ensures forall n | n in ledger.records :: n in old(ledger.records) && ledger.records[n] == old(ledger.records)[n]
    {
      var target := ResyncTo(error, chain);
      if target.Some? {
        SyncNonce(target.value);
      }
    }

    /**
     * Broadcast and settle. The nonce goes back to the tracker exactly when the refusal is definitive;
     * otherwise it is kept, and its record, unless evicted or consumed, is not a released one.
     */
    method SendSigned(tx: SignedTx, reception: Reception, chain: ChainNonces, now: nat)
      requires Valid() && tx.signature.Signature?
      modifies tracker, ledger
      ensures Valid() && tracker.exhausted == old(tracker.exhausted)
      ensures old(ledger.log) + [SignEvent(tx, now)] <= ledger.log
      ensures Settles(tx.nonce, old(tracker.Model()), reception, chain)
      ensures tracker.out == if reception.Failed? && Verdicts.IsDefinitive(reception.error)
                             then old(tracker.out) - {tx.nonce} else old(tracker.out)
      ensures tracker.syncedNonce == if reception.Failed? && !Verdicts.IsDefinitive(reception.error)
                                        && ResyncTo(reception.error, chain).Some?
                                     then Max(old(tracker.syncedNonce), ResyncTo(reception.error, chain).value)
                                     else old(tracker.syncedNonce)
      ensures reception.Accepted? && tx.nonce in ledger.records ==>
                && ledger.records[tx.nonce].status == Ledger.BroadcastAccepted
                && reception.hash in ledger.records[tx.nonce].txHashes
      ensures reception.Failed? && Verdicts.IsDefinitive(reception.error) ==>
                tx.nonce in ledger.records && ledger.records[tx.nonce].status == Ledger.Released
      ensures reception.Failed? && !Verdicts.IsDefinitive(reception.error) && tx.nonce in ledger.records ==>
                ledger.records[tx.nonce].status != Ledger.Released
    {
      ledger.RecordSigned(tx.nonce, tx.signature.hash, tx.signature.maxFee, tx.signature.maxPriority, now);
      ghost var recorded := ledger.log;
      Settle(tx.nonce, reception, chain, now);
      assert old(ledger.log) + [SignEvent(tx, now)] <= recorded <= ledger.log;
    }

    method Settle(nonce: u64, reception: Reception, chain: ChainNonces, now: nat)
      requires Valid() && (nonce in ledger.records ==> ledger.records[nonce].status != Ledger.Released)
      modifies tracker, ledger
      ensures Valid() && tracker.exhausted == old(tracker.exhausted)
      ensures old(ledger.log) <= ledger.log
      ensures Settles(nonce, old(tracker.Model()), reception, chain)
    {
      if reception.Accepted? {
        ledger.Update(nonce, reception.hash, Ledger.BroadcastAccepted, now);
      } else if Verdicts.IsDefinitive(reception.error) {
        tracker.Release(nonce);
        ledger.MarkReleased(nonce, "definitive_precheck_rejection", now);
      } else {
        RecoverNonceError(reception.error, chain);
      }
    }

    /**
     * From the endpoints' answers to the nonce: it is given back exactly when there are endpoints and
     * every one of them refuses definitively; one that accepts, or might have, keeps it.
     */
    method SendSignedTo(tx: SignedTx, replies: seq<Broadcast.RawReply>, json: string, chain: ChainNonces, now: nat)
      requires Valid() && tx.signature.Signature?
      modifies tracker, ledger
      ensures Valid()
      ensures old(ledger.log) + [SignEvent(tx, now)] <= ledger.log
      ensures replies != [] && (forall k | 0 <= k < |replies| :: Broadcast.RefusedDefinitively(replies[k])) ==>
                && tracker.Model() == old(tracker.Model()).Return(tx.nonce)
                && tx.nonce in ledger.records && ledger.records[tx.nonce].status == Ledger.Released
      ensures replies == [] || (exists k | 0 <= k < |replies| :: !Broadcast.RefusedDefinitively(replies[k])) ==>
                && tracker.Model().out == old(tracker.Model()).out
                && (tx.nonce in ledger.records ==> ledger.records[tx.nonce].status != Ledger.Released)
    {
      var reception := Broadcast.BroadcastTransaction(replies, json);
      SendSigned(tx, reception, chain, now);
    }

    /** What a broadcast of `nonce` that was received so leaves, given the allocator before it. */
    ghost predicate Settles(nonce: u64, before: Nonce.Allocator, reception: Reception, chain: ChainNonces)
      reads tracker, ledger
    {
      if reception.Accepted? then
        && tracker.Model() == before
        && (nonce in ledger.records ==> ledger.records[nonce].status == Ledger.BroadcastAccepted
                                        && reception.hash in ledger.records[nonce].txHashes)
      else if Verdicts.IsDefinitive(reception.error) then
        && tracker.Model() == before.Return(nonce)
        && nonce in ledger.records && ledger.records[nonce].status == Ledger.Released
      else
        && tracker.Model().out == before.out
        && (nonce in ledger.records ==> ledger.records[nonce].status != Ledger.Released)
        && var target := ResyncTo(reception.error, chain);
        && tracker.Model().synced == (if target.Some? then Max(before.synced, target.value) else before.synced)
    }

    // ---------- Batches ----------

    /**
     * Sign in order. Those that succeed get strictly increasing nonces, the least free ones first, even
     * when signings in between fail and give their nonce back.
     */
    method SignBatch(signatures: seq<Signature>, now: nat) returns (txs: seq<Option<SignedTx>>)
      requires Valid()
      modifies tracker, ledger
      ensures Valid() && |txs| == |signatures|
      ensures forall i | 0 <= i < |txs| ::
                if signatures[i].Signature? then txs[i].Some? && txs[i].value.signature == signatures[i] else txs[i].None?
      ensures !tracker.exhausted ==> Increasing(txs) && UsesLeast(old(tracker.Model()), txs, tracker.Model())
    {
      txs := [];
      var i := 0;
      ghost var before := tracker.Model();
      while i < |signatures|
        invariant Valid() && i == |txs| <= |signatures|
        invariant forall k | 0 <= k < i ::
                    if signatures[k].Signature? then txs[k].Some? && txs[k].value.signature == signatures[k] else txs[k].None?
        invariant !tracker.exhausted ==> Increasing(txs) && UsesLeast(before, txs, tracker.Model())
      {
        ghost var model := tracker.Model();
        var tx := Sign(signatures[i], now);
        if !tracker.exhausted {
          if tx.Some? {
            IssuedExtends(before, txs, model, tx.value);
          } else {
            FailedExtends(before, txs, model);
          }
        }
        txs := txs + [tx];
        i := i + 1;
      }
    }

    // ---------- Preheated contexts ----------

    /** The nonce of a context, reserved now if it has none yet. */
    method BindNonce(ctx: PreheatedContext) returns (nonce: u64)
      requires Valid() && ctx.Valid() && ctx.used && ctx.signatures == 0 && (ctx.reservation == null ==> ctx.bound == {})
      requires ctx.reservation != null ==> ctx.reservation.tracker == tracker
      modifies ctx`reservation, ctx`bound, tracker
      ensures Valid() && ctx.Valid() && unchanged(ledger)
      ensures ctx.reservation != null && ctx.reservation.tracker == tracker && ctx.reservation.nonce == nonce
      ensures ctx.bound == {nonce}
      ensures old(ctx.reservation) != null ==>
                ctx.reservation == old(ctx.reservation) && tracker.Model() == old(tracker.Model())
                && tracker.exhausted == old(tracker.exhausted)
      ensures old(ctx.reservation) == null ==>
                && fresh(ctx.reservation) && ctx.reservation.state == Nonce.Held
                && tracker.Model() == old(tracker.Model()).Issue(nonce)
                && (!tracker.exhausted ==> old(tracker.Model()).IsLeastFree(nonce))
    {
      if ctx.reservation == null {
        ctx.reservation := tracker.Reserve();
        ctx.bound := ctx.bound + {ctx.reservation.nonce};
      }
      nonce := ctx.reservation.nonce;
    }

    /** The allocator once `ctx` has its nonce. */
    ghost function Bound(hadOne: bool, before: Nonce.Allocator, nonce: u64): Nonce.Allocator {
      if hadOne then before else before.Issue(nonce)
    }

    /**
     * Sign with a context: only its first use can succeed, with the nonce it holds or else the least
     * free one. A failed signing gives a held nonce back.
     */
    method SignWithPreheat(ctx: PreheatedContext, signature: Signature, now: nat) returns (tx: Option<SignedTx>)
      requires Valid() && ctx.Valid() && (ctx.reservation != null ==> ctx.reservation.tracker == tracker)
      modifies ctx, ctx.reservation, tracker, ledger
      ensures Valid() && ctx.Valid() && ctx.used
      ensures tx.Some? <==> !old(ctx.used) && signature.Signature?
      ensures ctx.signatures == old(ctx.signatures) + if tx.Some? then 1 else 0
      ensures old(ctx.used) ==> unchanged(ctx) && unchanged(tracker) && unchanged(ledger)
      ensures tx.Some? ==>
                && tx.value.signature == signature && ctx.bound == {tx.value.nonce}
                && ctx.reservation != null && ctx.reservation.tracker == tracker
                && ctx.reservation.nonce == tx.value.nonce
                && tracker.Model() == Bound(old(ctx.reservation) != null, old(tracker.Model()), tx.value.nonce)
                && (tx.value.nonce in ledger.records ==> ledger.records[tx.value.nonce].status != Ledger.Released)
                && old(ledger.log) + [SignEvent(tx.value, now)] <= ledger.log
      ensures tx.Some? && old(ctx.reservation) != null ==>
                ctx.reservation == old(ctx.reservation) && ctx.reservation.state == old(ctx.reservation.state)
      ensures tx.Some? && old(ctx.reservation) == null ==>
                && fresh(ctx.reservation) && ctx.reservation.state == Nonce.Held
                && (!tracker.exhausted ==> old(tracker.Model()).IsLeastFree(tx.value.nonce))
      ensures !old(ctx.used) && tx.None? ==> ctx.reservation == null && unchanged(ledger)
      ensures !old(ctx.used) && tx.None? && old(ctx.reservation) == null && !tracker.exhausted ==>
                tracker.Model() == old(tracker.Model())
      ensures !old(ctx.used) && tx.None? && old(ctx.reservation) != null && old(ctx.reservation.state) == Nonce.Held ==>
                tracker.Model() == old(tracker.Model()).Return(old(ctx.reservation).nonce)
    {
      var first := ctx.MarkUsed();
      if !first {
        return None;
      }
      var nonce := BindNonce(ctx);
      tx := SignBound(ctx, signature, now);
      if tx.None? && old(ctx.reservation) == null && !tracker.exhausted {
        Nonce.ReturnUndoesIssue(old(tracker.Model()), nonce);
      }
    }

    /** Sign with the nonce a context holds, or give it back. */
    method SignBound(ctx: PreheatedContext, signature: Signature, now: nat) returns (tx: Option<SignedTx>)
      requires Valid() && ctx.Valid() && ctx.used && ctx.signatures == 0
      requires ctx.reservation != null && ctx.reservation.tracker == tracker
      modifies ctx, ctx.reservation, tracker, ledger
      ensures Valid() && ctx.Valid() && ctx.used && tracker.exhausted == old(tracker.exhausted)
      ensures tx == if signature.Signature? then Some(SignedTx(old(ctx.reservation.nonce), signature)) else None
      ensures ctx.signatures == if tx.Some? then 1 else 0
      ensures tx.Some? ==>
                && ctx.reservation == old(ctx.reservation) && ctx.reservation.state == old(ctx.reservation.state)
                && ctx.bound == old(ctx.bound) && tracker.Model() == old(tracker.Model())
                && (tx.value.nonce in ledger.records ==> ledger.records[tx.value.nonce].status != Ledger.Released)
                && old(ledger.log) + [SignEvent(tx.value, now)] <= ledger.log
      ensures tx.None? ==>
                && ctx.reservation == null && unchanged(ledger)
                && tracker.Model() == if old(ctx.reservation.state) == Nonce.Held
                                      then old(tracker.Model()).Return(old(ctx.reservation).nonce) else old(tracker.Model())
    {
      var nonce := ctx.reservation.nonce;
      if signature.SignError? {
        var released := ctx.ReleaseReservation();
        return None;
      }
      ctx.signatures := ctx.signatures + 1;
      ledger.RecordSigned(nonce, signature.hash, signature.maxFee, signature.maxPriority, now);
      return Some(SignedTx(nonce, signature));
    }

    /**
     * Sign and send with a context. Once broadcast, the nonce settles as in `SendSigned`, and the
     * guard is spent unless the nonce is kept, when dropping it later returns nothing.
     */
    method SendWithPreheat(ctx: PreheatedContext, signature: Signature, reception: Reception, chain: ChainNonces, now: nat)
      returns (tx: Option<SignedTx>)
      requires Valid() && ctx.Valid() && (ctx.reservation != null ==> ctx.reservation.tracker == tracker)
      modifies ctx, ctx.reservation, tracker, ledger
      ensures Valid() && ctx.Valid() && ctx.used
      ensures tx.Some? <==> !old(ctx.used) && signature.Signature?
                            && (old(ctx.reservation) != null ==> old(ctx.reservation.state) == Nonce.Held)
      ensures tx.Some? ==>
                Settles(tx.value.nonce, Bound(old(ctx.reservation) != null, old(tracker.Model()), tx.value.nonce),
                        reception, chain)
      ensures tx.Some? ==> tx.value.signature == signature && old(ledger.log) + [SignEvent(tx.value, now)] <= ledger.log
      ensures tx.Some? ==>
                if reception.Failed? && !Verdicts.IsDefinitive(reception.error)
                then ctx.reservation != null && ctx.reservation.state == Nonce.Broadcasting
                else ctx.reservation == null
    {
      var signed := SignWithPreheat(ctx, signature, now);
      if signed.None? {
        return None;
      }
      var broadcasting := ctx.reservation.MarkBroadcasting();
      if !broadcasting {
        return None;
      }
      SettlePreheat(ctx, signed.value.nonce, reception, chain, now);
      return signed;
    }

    method SettlePreheat(ctx: PreheatedContext, nonce: u64, reception: Reception, chain: ChainNonces, now: nat)
      requires Valid() && ctx.Valid() && ctx.used && ctx.reservation != null && ctx.reservation.tracker == tracker
      requires ctx.reservation.state == Nonce.Broadcasting && ctx.reservation.nonce == nonce
      requires nonce in ledger.records ==> ledger.records[nonce].status != Ledger.Released
      modifies ctx`used, ctx`reservation, ctx.reservation, tracker, ledger
      ensures Valid() && ctx.Valid() && ctx.used
      ensures old(ledger.log) <= ledger.log
      ensures Settles(nonce, old(tracker.Model()), reception, chain)
      ensures if reception.Failed? && !Verdicts.IsDefinitive(reception.error)
              then ctx.reservation == old(ctx.reservation) && ctx.reservation.state == Nonce.Broadcasting
              else ctx.reservation == null
    {
      if reception.Accepted? {
        ctx.CommitReservation();
        ledger.Update(nonce, reception.hash, Ledger.BroadcastAccepted, now);
      } else {
        var released := false;
        if Verdicts.IsDefinitive(reception.error) {
          released := ctx.ReleaseRejectedBroadcast();
        }
        if released {
          ledger.MarkReleased(nonce, "definitive_precheck_rejection", now);
        } else {
          RecoverNonceError(reception.error, chain);
        }
      }
    }
  }

  // ---------- Batches of nonces ----------

  ghost function Nonces(txs: seq<Option<SignedTx>>): set<nat> {
    set i | 0 <= i < |txs| && txs[i].Some? :: txs[i].value.nonce
  }

  ghost predicate Increasing(txs: seq<Option<SignedTx>>) {
    forall i, j | 0 <= i < j < |txs| && txs[i].Some? && txs[j].Some? :: txs[i].value.nonce < txs[j].value.nonce
  }

  /** Exactly the nonces of `txs` were taken, and nothing below any of them is left free. */
  ghost predicate UsesLeast(before: Nonce.Allocator, txs: seq<Option<SignedTx>>, after: Nonce.Allocator) {
    && after.synced == before.synced && after.out == before.out + Nonces(txs) && before.out !! Nonces(txs)
    && forall i, m: nat | 0 <= i < |txs| && txs[i].Some? && after.IsLeastFree(m) :: txs[i].value.nonce < m
  }

  lemma IssuedExtends(before: Nonce.Allocator, txs: seq<Option<SignedTx>>, model: Nonce.Allocator, tx: SignedTx)
    requires UsesLeast(before, txs, model) && Increasing(txs) && model.IsLeastFree(tx.nonce)
    ensures Increasing(txs + [Some(tx)]) && UsesLeast(before, txs + [Some(tx)], model.Issue(tx.nonce))
  {
    var longer := txs + [Some(tx)];
    Nonce.ReturnUndoesIssue(model, tx.nonce);
    assert Nonces(longer) == Nonces(txs) + {tx.nonce} by {
      assert longer[|txs|] == Some(tx);
      assert forall i | 0 <= i < |txs| :: longer[i] == txs[i];
    }
    forall i, m: nat | 0 <= i < |longer| && longer[i].Some? && model.Issue(tx.nonce).IsLeastFree(m)
      ensures longer[i].value.nonce < m
    {
      assert tx.nonce < m;
    }
  }

  lemma FailedExtends(before: Nonce.Allocator, txs: seq<Option<SignedTx>>, model: Nonce.Allocator)
    requires UsesLeast(before, txs, model) && Increasing(txs)
    ensures Increasing(txs + [None]) && UsesLeast(before, txs + [None], model)
  {
    var longer := txs + [None];
    assert Nonces(longer) == Nonces(txs) by {
      assert forall i | 0 <= i < |txs| :: longer[i] == txs[i];
    }
  }
}
