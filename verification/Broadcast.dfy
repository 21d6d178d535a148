/** The batch client: its error when nothing was accepted, and what that error proves. */
module Broadcast {
  import opened Words
  import opened Text
  import opened Verdicts
  import opened Collecting
  import Phrases
  import Redaction

  const NO_ENDPOINTS: WalletError := RpcError("No RPC endpoints")

  /** What one endpoint answers before anything is kept of it. */
  datatype RawReply =
    | Taken(url: string, hash: Hash, elapsedMs: u64)
    | Refusal(url: string, error: WalletError, elapsedMs: u64)

  datatype BatchResult = Accepted(hash: Hash) | Failed(error: WalletError)

  function Judged(r: RawReply, index: nat): Reply<EndpointVerdict> {
    Reply(index, r.url, if r.Taken? then Answer.Accepted(r.hash) else Refused(VerdictOf(r.url, r.error, r.elapsedMs)),
          r.elapsedMs)
  }

  function JudgedAll(replies: seq<RawReply>): seq<Reply<EndpointVerdict>> {
    seq(|replies|, k requires 0 <= k < |replies| => Judged(replies[k], k))
  }

  /** The endpoint refused, and its own verdict proves that it kept nothing. */
  predicate RefusedDefinitively(r: RawReply) {
    r.Refusal? && DefinitiveVerdict(VerdictOf(r.url, r.error, r.elapsedMs))
  }

  /** What that means of the error the endpoint answered with. */
  lemma RefusedDefinitivelyIff(r: RawReply)
    ensures RefusedDefinitively(r) <==>
            && r.Refusal? && ClassOf(r.error) == Rejection
            && IsDefinitive(RpcError(Redaction.Redact(Display(r.error))))
  {
    if r.Refusal? {
      Phrases.VerdictDefinitiveIff(r.url, r.error, r.elapsedMs);
    }
  }

  /**
   * Succeeds exactly when some endpoint accepts, and fails definitively exactly when there are
   * endpoints and every one of them refuses definitively, whatever the completion order.
   */
  method BroadcastTransaction(replies: seq<RawReply>, json: string) returns (result: BatchResult)
    ensures result.Accepted? <==> exists k | 0 <= k < |replies| :: replies[k].Taken?
    ensures result.Accepted? ==> exists k | 0 <= k < |replies| :: replies[k].Taken? && replies[k].hash == result.hash
    ensures result.Failed? ==>
              (IsDefinitive(result.error) <==>
               replies != [] && forall k | 0 <= k < |replies| :: RefusedDefinitively(replies[k]))
    ensures replies == [] ==> result == Failed(RpcError("No RPC endpoints"))
    ensures result.Failed? && replies != [] ==>
              && result.error.BroadcastFailed?
              && multiset(result.error.endpoints) == multiset(Refusals(JudgedAll(replies)))
  {
    if replies == [] {
      NoEndpointsIsAmbiguous();
      return Failed(NO_ENDPOINTS);
    }
    var outcome := CollectBroadcast(JudgedAll(replies));
    if outcome.Sent? {
      WinnerIsTaken(replies, outcome);
      return BatchResult.Accepted(outcome.hash);
    }
    NobodyTook(replies);
    FailureIsDefinitiveIff(replies, outcome.failures, json);
    return Failed(BroadcastFailed(outcome.failures, json));
  }

  lemma WinnerIsTaken(replies: seq<RawReply>, outcome: Outcome<EndpointVerdict>)
    requires outcome.Sent?
    requires Reply(outcome.index, outcome.url, Answer.Accepted(outcome.hash), outcome.elapsedMs) in JudgedAll(replies)
    ensures exists k | 0 <= k < |replies| :: replies[k].Taken? && replies[k].hash == outcome.hash
  {
    var all := JudgedAll(replies);
    var k :| 0 <= k < |all| && all[k].answer == Answer.Accepted(outcome.hash);
    assert all[k] == Judged(replies[k], k);
  }

  lemma NobodyTook(replies: seq<RawReply>)
    ensures SomeAccepts(JudgedAll(replies)) <==> exists k | 0 <= k < |replies| :: replies[k].Taken?
  {
    var all := JudgedAll(replies);
    assert forall k | 0 <= k < |replies| :: all[k] == Judged(replies[k], k);
    if k :| 0 <= k < |replies| && replies[k].Taken? {
      assert all[k].answer.Accepted?;
    }
  }

  /** One endpoint that accepted, or that might have, anywhere in the fleet keeps the nonce. */
  lemma FailureIsDefinitiveIff(replies: seq<RawReply>, failures: seq<EndpointVerdict>, json: string)
    requires forall k | 0 <= k < |replies| :: replies[k].Refusal?
    requires multiset(failures) == multiset(Refusals(JudgedAll(replies)))
    ensures IsDefinitive(BroadcastFailed(failures, json)) <==>
            replies != [] && forall k | 0 <= k < |replies| :: RefusedDefinitively(replies[k])
  {
    var all := JudgedAll(replies);
    FailureCoversAll(all, failures);
    AggregateDefinitiveIff(failures, json);
    forall k | 0 <= k < |replies|
      ensures all[k].answer.verdict in failures
      ensures RefusedDefinitively(replies[k]) <==> DefinitiveVerdict(all[k].answer.verdict)
    {
      assert all[k] == Judged(replies[k], k);
    }
  }

  // ---------- No endpoints ----------

  lemma NeedleNeeds(s: string, p: string, k: nat)
    requires k < |p| && p[k] !in s
    ensures !Contains(s, p)
  {
    if Contains(s, p) {
      ContainsChars(s, p, p[k]);
    }
  }

  /** Failing for want of endpoints proves nothing, so the nonce is kept. */
  lemma NoEndpointsIsAmbiguous()
    ensures !IsDefinitive(NO_ENDPOINTS)
  {
    var lower := Lower(Display(NO_ENDPOINTS));
    LowerConcat("RPC error: ", "No RPC endpoints");
    LettersOfPrefix();
    LettersOfText();
    assert lower == Lower("RPC error: ") + Lower("No RPC endpoints");
    LacksDefinitive(lower);
    LacksPrecheck(lower);
  }

  lemma LettersOfPrefix()
    ensures LacksLetters(Lower("RPC error: "))
  {
    assert Lower("RPC error: ") == "rpc error: ";
  }

  lemma LettersOfText()
    ensures LacksLetters(Lower("No RPC endpoints"))
  {
    assert Lower("No RPC endpoints") == "no rpc endpoints";
  }

  predicate LacksLetters(s: string) {
    'x' !in s && 'u' !in s && 'g' !in s && 'v' !in s && 'a' !in s
  }

  lemma LacksDefinitive(s: string)
    requires LacksLetters(s)
    ensures !ContainsAny(s, DEFINITIVE_PHRASES)
  {
    NeedleNeeds(s, DEFINITIVE_PHRASES[0], 1);
    NeedleNeeds(s, DEFINITIVE_PHRASES[1], 3);
    NeedleNeeds(s, DEFINITIVE_PHRASES[2], 3);
    NeedleNeeds(s, DEFINITIVE_PHRASES[3], 1);
    NeedleNeeds(s, DEFINITIVE_PHRASES[4], 1);
    NeedleNeeds(s, DEFINITIVE_PHRASES[5], 10);
    NeedleNeeds(s, DEFINITIVE_PHRASES[6], 2);
    NeedleNeeds(s, DEFINITIVE_PHRASES[7], 1);
    NeedleNeeds(s, DEFINITIVE_PHRASES[8], 2);
  }

  lemma LacksPrecheck(s: string)
    requires LacksLetters(s)
    ensures !MatchesFeeOrGasPrecheck(s)
  {
    NeedleNeeds(s, PRECHECK_PHRASES[0], 10);
    NeedleNeeds(s, PRECHECK_PHRASES[1], 1);
    NeedleNeeds(s, FEE_FLOOR_REJECTION_PHRASES[0], 1);
    NeedleNeeds(s, FEE_FLOOR_REJECTION_PHRASES[1], 5);
    NeedleNeeds(s, FEE_FLOOR_REJECTION_PHRASES[2], 1);
    NeedleNeeds(s, FEE_FLOOR_REJECTION_PHRASES[3], 0);
  }
}
