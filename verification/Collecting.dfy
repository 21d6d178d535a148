/**
 * Sending one transaction to every endpoint of a batch client, taking the answers in whatever order
 * they complete. `V` is what is kept of an endpoint's error.
 */
module Collecting {
  import opened Words

  type Hash = nat

  datatype Answer<V> = Accepted(hash: Hash) | Refused(verdict: V)

  /** What one endpoint answers, and after how long. */
  datatype Reply<V> = Reply(index: nat, url: string, answer: Answer<V>, elapsedMs: u64)

  datatype Outcome<V> =
    | Sent(index: nat, url: string, hash: Hash, elapsedMs: u64, slowestMs: u64, failures: seq<V>)
    | AllRefused(failures: seq<V>)

  ghost predicate SomeAccepts<V>(replies: seq<Reply<V>>) {
    exists i | 0 <= i < |replies| :: replies[i].answer.Accepted?
  }

  /** The verdicts on the endpoints that refuse. */
  function Refusals<V>(replies: seq<Reply<V>>): seq<V> {
    if replies == [] then []
    else
      var r := replies[0];
      (if r.answer.Refused? then [r.answer.verdict] else []) + Refusals(replies[1..])
  }

  function Without<T>(s: seq<T>, i: nat): seq<T>
    requires i < |s|
  {
    s[..i] + s[i + 1..]
  }

  lemma {:induction false} RefusalsConcat<V>(a: seq<Reply<V>>, b: seq<Reply<V>>)
    ensures Refusals(a + b) == Refusals(a) + Refusals(b)
  {
    if a == [] {
      assert a + b == b;
    } else {
      RefusalsConcat(a[1..], b);
      assert (a + b)[1..] == a[1..] + b && (a + b)[0] == a[0];
      var head := if a[0].answer.Refused? then [a[0].answer.verdict] else [];
      assert head + (Refusals(a[1..]) + Refusals(b)) == head + Refusals(a[1..]) + Refusals(b);
    }
  }

  lemma RefusalsWithout<V>(replies: seq<Reply<V>>, i: nat)
    requires i < |replies| && replies[i].answer.Refused?
    ensures var r := replies[i];
            multiset(Refusals(replies)) ==
            multiset(Refusals(Without(replies, i))) + multiset{r.answer.verdict}
  {
    var a, r, b := replies[..i], replies[i], replies[i + 1..];
    assert replies == a + ([r] + b);
    RefusalsConcat(a, [r] + b);
    RefusalsConcat([r], b);
    RefusalsConcat(a, b);
    OneRefusal(r);
    InsertCounts(Refusals(a), r.answer.verdict, Refusals(b));
  }

  lemma OneRefusal<V>(r: Reply<V>)
    ensures Refusals([r]) == if r.answer.Refused? then [r.answer.verdict] else []
  {
    assert [r][1..] == [];
  }

  lemma InsertCounts<V>(a: seq<V>, v: V, b: seq<V>)
    ensures multiset(a + ([v] + b)) == multiset(a + b) + multiset{v}
  {
  }

  lemma AcceptsWithout<V>(replies: seq<Reply<V>>, i: nat)
    requires i < |replies| && replies[i].answer.Refused?
    ensures SomeAccepts(replies) <==> SomeAccepts(Without(replies, i))
  {
    var rest := Without(replies, i);
    if k :| 0 <= k < |replies| && replies[k].answer.Accepted? {
      assert replies[k] == rest[if k < i then k else k - 1];
    }
    if k :| 0 <= k < |rest| && rest[k].answer.Accepted? {
      assert rest[k] == replies[if k < i then k else k + 1];
    }
  }

  /** What is pending and what has failed make up what was sent. */
  ghost predicate Collects<V>(replies: seq<Reply<V>>, pending: seq<Reply<V>>, failures: seq<V>) {
    && multiset(failures) + multiset(Refusals(pending)) == multiset(Refusals(replies))
    && (SomeAccepts(pending) <==> SomeAccepts(replies))
    && forall k | 0 <= k < |pending| :: pending[k] in replies
  }

  lemma RefusalIsCollected<V>(replies: seq<Reply<V>>, pending: seq<Reply<V>>, failures: seq<V>, i: nat)
    requires Collects(replies, pending, failures) && i < |pending| && pending[i].answer.Refused?
    ensures Collects(replies, Without(pending, i), failures + [pending[i].answer.verdict])
  {
    var verdict := pending[i].answer.verdict;
    RefusalsWithout(pending, i);
    AcceptsWithout(pending, i);
    MovesOver(multiset(failures), multiset(Refusals(pending)), multiset(Refusals(Without(pending, i))), verdict);
    assert multiset(failures + [verdict]) == multiset(failures) + multiset{verdict};
    StillAmong(replies, pending, i);
  }

  lemma MovesOver<V>(a: multiset<V>, b: multiset<V>, rest: multiset<V>, v: V)
    requires b == rest + multiset{v}
    ensures (a + multiset{v}) + rest == a + b
  {
  }

  lemma StillAmong<V>(replies: seq<V>, pending: seq<V>, i: nat)
    requires i < |pending| && forall k | 0 <= k < |pending| :: pending[k] in replies
    ensures forall k | 0 <= k < |Without(pending, i)| :: Without(pending, i)[k] in replies
  {
    var rest := Without(pending, i);
    forall k | 0 <= k < |rest| ensures rest[k] in replies {
      assert rest[k] == pending[if k < i then k else k + 1];
    }
  }

  /**
   * The first acceptance wins. Without one, the failure holds exactly one verdict for each endpoint.
   */
  method CollectBroadcast<V>(replies: seq<Reply<V>>) returns (outcome: Outcome<V>)
    ensures outcome.Sent? <==> SomeAccepts(replies)
    ensures outcome.Sent? ==>
              Reply(outcome.index, outcome.url, Accepted(outcome.hash), outcome.elapsedMs) in replies
    ensures outcome.Sent? ==>
              outcome.elapsedMs <= outcome.slowestMs && multiset(outcome.failures) <= multiset(Refusals(replies))
    ensures outcome.AllRefused? ==> multiset(outcome.failures) == multiset(Refusals(replies))
  {
    var pending := replies;
    var failures: seq<V> := [];
    var slowestMs: u64 := 0;
    while pending != []
      invariant Collects(replies, pending, failures)
      decreases |pending|
    {
      var i :| 0 <= i < |pending|;
      var Reply(index, url, answer, elapsedMs) := pending[i];
      slowestMs := Max(slowestMs, elapsedMs);
      if answer.Accepted? {
        return Sent(index, url, answer.hash, elapsedMs, slowestMs, failures);
      }
      RefusalIsCollected(replies, pending, failures, i);
      failures := failures + [answer.verdict];
      pending := Without(pending, i);
    }
    outcome := AllRefused(failures);
  }

  lemma {:induction false} RefusalsAre<V>(replies: seq<Reply<V>>)
    requires forall k | 0 <= k < |replies| :: replies[k].answer.Refused?
    ensures |Refusals(replies)| == |replies|
    ensures forall k | 0 <= k < |replies| :: Refusals(replies)[k] == replies[k].answer.verdict
  {
    if replies != [] {
      RefusalsAre(replies[1..]);
    }
  }

  /** A complete failure holds exactly the verdicts of the endpoints. */
  lemma FailureCoversAll<V>(replies: seq<Reply<V>>, failures: seq<V>)
    requires forall k | 0 <= k < |replies| :: replies[k].answer.Refused?
    requires multiset(failures) == multiset(Refusals(replies))
    ensures |failures| == |replies|
    ensures forall k | 0 <= k < |replies| :: replies[k].answer.verdict in failures
    ensures forall v | v in failures :: exists k | 0 <= k < |replies| :: replies[k].answer.verdict == v
  {
    var all := Refusals(replies);
    RefusalsAre(replies);
    assert |multiset(failures)| == |multiset(all)|;
    forall k | 0 <= k < |replies| ensures replies[k].answer.verdict in failures {
      assert all[k] in multiset(all);
    }
    forall v | v in failures ensures exists k | 0 <= k < |replies| :: replies[k].answer.verdict == v {
      assert v in multiset(failures);
      var k :| 0 <= k < |all| && all[k] == v;
      assert replies[k].answer.verdict == v;
    }
  }
}
