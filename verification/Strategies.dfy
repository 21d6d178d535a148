/** The four ways of sending one transaction to a list of endpoints, and the order they are tried in. */
module Strategies {
  import opened Words
  import opened Verdicts
  import Collecting

  type Hash = Collecting.Hash

  datatype Answer = Ok(hash: Hash) | Err(error: WalletError)

  datatype Endpoint = Endpoint(host: string, priority: nat, isPrivate: bool, answer: Answer)

  datatype HostError = HostError(host: string, error: WalletError)

  datatype BroadcastResult = BroadcastResult(txHash: Option<Hash>, successCount: nat, failureCount: nat,
                                             errors: seq<HostError>, firstSuccess: Option<string>)

  datatype Strategy = RaceAll | BroadcastAll | PriorityOrdered | PrivateFirst

  ghost predicate SomeAccepts(endpoints: seq<Endpoint>) {
    exists k | 0 <= k < |endpoints| :: endpoints[k].answer.Ok?
  }

  /** A hash is returned exactly when some endpoint accepts, and it is that endpoint's. */
  ghost predicate Honest(r: BroadcastResult, endpoints: seq<Endpoint>) {
    && (r.txHash.Some? <==> SomeAccepts(endpoints))
    && (r.txHash.Some? <==> r.firstSuccess.Some?)
    && (r.txHash.Some? ==> exists k | 0 <= k < |endpoints| ::
                             endpoints[k].answer == Ok(r.txHash.value) && endpoints[k].host == r.firstSuccess.value)
  }

  /** The errors of the endpoints that refuse, in order. */
  function Errors(endpoints: seq<Endpoint>): seq<HostError> {
    if endpoints == [] then []
    else
      var last := endpoints[|endpoints| - 1];
      Errors(endpoints[..|endpoints| - 1]) + if last.answer.Err? then [HostError(last.host, last.answer.error)] else []
  }

  function Acceptors(endpoints: seq<Endpoint>): nat {
    if endpoints == [] then 0
    else Acceptors(endpoints[..|endpoints| - 1]) + if endpoints[|endpoints| - 1].answer.Ok? then 1 else 0
  }

  const NO_ENDPOINTS: WalletError := RpcError("No endpoints configured")

  /** Errors and acceptances are counted endpoint by endpoint, in list order. */
  lemma {:induction false} ErrorsAre(a: seq<Endpoint>, e: Endpoint, b: seq<Endpoint>)
    ensures Errors(a + [e] + b) ==
            Errors(a) + (if e.answer.Err? then [HostError(e.host, e.answer.error)] else []) + Errors(b)
    ensures Acceptors(a + [e] + b) == Acceptors(a) + (if e.answer.Ok? then 1 else 0) + Acceptors(b)
    ensures Errors([]) == [] && Acceptors([]) == 0
    decreases |b|
  {
    if b == [] {
      assert a + [e] + b == a + [e];
      assert (a + [e])[..|a|] == a;
    } else {
      var front, last := b[..|b| - 1], b[|b| - 1];
      ErrorsAre(a, e, front);
      assert (a + [e] + b)[..|a| + |b|] == a + [e] + front;
    }
  }

  // ---------- Racing ----------

  function ReplyOf(e: Endpoint, index: nat): Collecting.Reply<HostError> {
    Collecting.Reply(index, e.host, if e.answer.Ok? then Collecting.Accepted(e.answer.hash)
                                    else Collecting.Refused(HostError(e.host, e.answer.error)), 0)
  }

  function Replies(endpoints: seq<Endpoint>): seq<Collecting.Reply<HostError>> {
    seq(|endpoints|, k requires 0 <= k < |endpoints| => ReplyOf(endpoints[k], k))
  }

  lemma RepliesAccept(endpoints: seq<Endpoint>)
    ensures Collecting.SomeAccepts(Replies(endpoints)) <==> SomeAccepts(endpoints)
  {
    var replies := Replies(endpoints);
    assert forall k | 0 <= k < |endpoints| :: replies[k] == ReplyOf(endpoints[k], k);
    if k :| 0 <= k < |endpoints| && endpoints[k].answer.Ok? {
      assert replies[k].answer.Accepted?;
    }
  }

  lemma {:induction false} RefusalsAreErrors(endpoints: seq<Endpoint>)
    ensures Collecting.Refusals(Replies(endpoints)) == Errors(endpoints)
  {
    if endpoints != [] {
      var front, last := endpoints[..|endpoints| - 1], endpoints[|endpoints| - 1];
      RefusalsAreErrors(front);
      assert Replies(endpoints) == Replies(front) + [ReplyOf(last, |front|)];
      Collecting.RefusalsConcat(Replies(front), [ReplyOf(last, |front|)]);
      Collecting.OneRefusal(ReplyOf(last, |front|));
    }
  }

  lemma WinnerAccepts(endpoints: seq<Endpoint>, r: Collecting.Reply<HostError>)
    requires r in Replies(endpoints) && r.answer.Accepted?
    ensures exists k | 0 <= k < |endpoints| :: endpoints[k].answer == Ok(r.answer.hash) && endpoints[k].host == r.url
  {
    var replies := Replies(endpoints);
    var k :| 0 <= k < |replies| && replies[k] == r;
    assert replies[k] == ReplyOf(endpoints[k], k);
  }

  /** All at once, in any completion order; the first acceptance ends the race. */
  method Race(endpoints: seq<Endpoint>) returns (r: BroadcastResult)
    ensures Honest(r, endpoints)
    ensures r.successCount == (if r.txHash.Some? then 1 else 0) && r.failureCount == |r.errors|
    ensures multiset(r.errors) <= multiset(Errors(endpoints))
    ensures r.txHash.None? ==> multiset(r.errors) == multiset(Errors(endpoints))
  {
    var outcome := Collecting.CollectBroadcast(Replies(endpoints));
    RepliesAccept(endpoints);
    RefusalsAreErrors(endpoints);
    if outcome.Sent? {
      WinnerAccepts(endpoints, Collecting.Reply(outcome.index, outcome.url, Collecting.Accepted(outcome.hash),
                                                outcome.elapsedMs));
      return BroadcastResult(Some(outcome.hash), 1, |outcome.failures|, outcome.failures, Some(outcome.url));
    }
    return BroadcastResult(None, 0, |outcome.failures|, outcome.failures, None);
  }

  /** Racing no endpoint reports one error and counts no failure. */
  method BroadcastRace(endpoints: seq<Endpoint>) returns (r: BroadcastResult)
    ensures Honest(r, endpoints) && r.successCount == (if r.txHash.Some? then 1 else 0)
    ensures endpoints == [] ==> r.errors == [HostError("none", RpcError("No endpoints configured"))] && r.failureCount == 0
    ensures endpoints != [] ==> r.failureCount == |r.errors| && multiset(r.errors) <= multiset(Errors(endpoints))
    ensures endpoints != [] && r.txHash.None? ==> multiset(r.errors) == multiset(Errors(endpoints))
  {
    if endpoints == [] {
      return BroadcastResult(None, 0, 0, [HostError("none", NO_ENDPOINTS)], None);
    }
    r := Race(endpoints);
  }

  // ---------- All, and one after the other ----------

  /** Every endpoint is waited for; the hash is that of the first acceptor in order. */
  method BroadcastToAll(endpoints: seq<Endpoint>) returns (r: BroadcastResult)
    ensures Honest(r, endpoints)
    ensures r.errors == Errors(endpoints)
    ensures r.failureCount == |r.errors|
    ensures r.successCount == Acceptors(endpoints)
    ensures r.txHash.Some? ==> SomeFirst(endpoints, r.txHash.value, r.firstSuccess.value)
  {
    var txHash: Option<Hash> := None;
    var firstSuccess: Option<string> := None;
    var successCount := 0;
    var errors: seq<HostError> := [];
    var i := 0;
    while i < |endpoints|
      invariant 0 <= i <= |endpoints|
      invariant txHash.Some? <==> firstSuccess.Some?
      invariant txHash.None? ==> !SomeAccepts(endpoints[..i])
      invariant txHash.Some? ==> exists k | 0 <= k < i :: IsFirst(endpoints, k, txHash.value, firstSuccess.value)
      invariant errors == Errors(endpoints[..i]) && successCount == Acceptors(endpoints[..i])
    {
      var e := endpoints[i];
      assert endpoints[..i + 1][..i] == endpoints[..i] && endpoints[..i + 1][i] == e;
      if e.answer.Ok? {
        if txHash.None? {
          assert IsFirst(endpoints, i, e.answer.hash, e.host);
          txHash, firstSuccess := Some(e.answer.hash), Some(e.host);
        }
        successCount := successCount + 1;
      } else {
        errors := errors + [HostError(e.host, e.answer.error)];
        NoNewAcceptor(endpoints, i);
      }
      i := i + 1;
    }
    assert endpoints[..i] == endpoints;
    r := BroadcastResult(txHash, successCount, |errors|, errors, firstSuccess);
  }

  ghost predicate IsFirst(endpoints: seq<Endpoint>, k: nat, hash: Hash, host: string)
    requires k < |endpoints|
  {
    endpoints[k].answer == Ok(hash) && endpoints[k].host == host && !SomeAccepts(endpoints[..k])
  }

  ghost predicate SomeFirst(endpoints: seq<Endpoint>, hash: Hash, host: string) {
    exists k | 0 <= k < |endpoints| :: IsFirst(endpoints, k, hash, host)
  }

  lemma NoNewAcceptor(endpoints: seq<Endpoint>, i: nat)
    requires i < |endpoints| && endpoints[i].answer.Err?
    ensures SomeAccepts(endpoints[..i + 1]) <==> SomeAccepts(endpoints[..i])
  {
    var longer, shorter := endpoints[..i + 1], endpoints[..i];
    assert longer[i] == endpoints[i];
    if k :| 0 <= k < |longer| && longer[k].answer.Ok? {
      assert shorter[k] == longer[k];
    }
    if k :| 0 <= k < |shorter| && shorter[k].answer.Ok? {
      assert shorter[k] == longer[k];
    }
  }

  /** The endpoints up to the first acceptor. */
  function Contacted(endpoints: seq<Endpoint>): seq<Endpoint> {
    if endpoints == [] then []
    else [endpoints[0]] + if endpoints[0].answer.Ok? then [] else Contacted(endpoints[1..])
  }

  /** A prefix whose only acceptor, if any, is its last is what is contacted, unless more must be tried. */
  lemma {:induction false} ContactedIs(endpoints: seq<Endpoint>, k: nat)
    requires k <= |endpoints| && forall i | 0 <= i < k - 1 :: endpoints[i].answer.Err?
    requires k == |endpoints| || (k > 0 && endpoints[k - 1].answer.Ok?)
    ensures Contacted(endpoints) == endpoints[..k]
    decreases k
  {
    if k > 1 {
      ContactedIs(endpoints[1..], k - 1);
      assert endpoints[..k] == [endpoints[0]] + endpoints[1..][..k - 1];
    } else if k == 1 {
      assert endpoints[1..] == [] || endpoints[0].answer.Ok?;
    }
  }

  /** In list order: what is contacted is the list up to its first acceptor, or all of it. */
  method BroadcastPriority(endpoints: seq<Endpoint>) returns (r: BroadcastResult, ghost contacted: seq<Endpoint>)
    ensures Honest(r, endpoints) && r.successCount == (if r.txHash.Some? then 1 else 0)
    ensures contacted == Contacted(endpoints)
    ensures contacted <= endpoints && r.errors == Errors(contacted) && r.failureCount == |r.errors|
    ensures r.txHash.Some? ==> contacted != [] && contacted[|contacted| - 1].answer == Ok(r.txHash.value)
                               && !SomeAccepts(contacted[..|contacted| - 1])
    ensures r.txHash.None? ==> contacted == endpoints
  {
    var errors: seq<HostError> := [];
    var i := 0;
    while i < |endpoints|
      invariant 0 <= i <= |endpoints| && errors == Errors(endpoints[..i]) && !SomeAccepts(endpoints[..i])
    {
      var e := endpoints[i];
      assert endpoints[..i + 1][..i] == endpoints[..i] && endpoints[..i + 1][i] == e;
      if e.answer.Ok? {
        r := BroadcastResult(Some(e.answer.hash), 1, |errors|, errors, Some(e.host));
        contacted := endpoints[..i + 1];
        ContactedIs(endpoints, i + 1);
        return;
      }
      errors := errors + [HostError(e.host, e.answer.error)];
      NoNewAcceptor(endpoints, i);
      i := i + 1;
    }
    assert endpoints[..i] == endpoints;
    r := BroadcastResult(None, 0, |errors|, errors, None);
    contacted := endpoints;
    ContactedIs(endpoints, i);
  }

  // ---------- Private relays first ----------

  function Side(endpoints: seq<Endpoint>, isPrivate: bool): seq<Endpoint> {
    if endpoints == [] then []
    else (if endpoints[0].isPrivate == isPrivate then [endpoints[0]] else []) + Side(endpoints[1..], isPrivate)
  }

  lemma {:induction false} SideIs(endpoints: seq<Endpoint>, isPrivate: bool)
    ensures forall e :: e in Side(endpoints, isPrivate) <==> e in endpoints && e.isPrivate == isPrivate
  {
    if endpoints != [] {
      SideIs(endpoints[1..], isPrivate);
      forall e ensures e in Side(endpoints, isPrivate) <==> e in endpoints && e.isPrivate == isPrivate {
        assert e in endpoints <==> e == endpoints[0] || e in endpoints[1..];
      }
    }
  }

  lemma AcceptsIn(endpoints: seq<Endpoint>)
    ensures SomeAccepts(endpoints) <==> exists e | e in endpoints :: e.answer.Ok?
  {
    if k :| 0 <= k < |endpoints| && endpoints[k].answer.Ok? {
      assert endpoints[k] in endpoints;
    }
  }

  lemma SidesAccept(endpoints: seq<Endpoint>)
    ensures SomeAccepts(endpoints) <==> SomeAccepts(Side(endpoints, true)) || SomeAccepts(Side(endpoints, false))
  {
    AcceptsIn(endpoints);
    AcceptsIn(Side(endpoints, true));
    AcceptsIn(Side(endpoints, false));
    SideIs(endpoints, true);
    SideIs(endpoints, false);
  }

  lemma HonestOfSide(endpoints: seq<Endpoint>, isPrivate: bool, r: BroadcastResult)
    requires Honest(r, Side(endpoints, isPrivate)) && SomeAccepts(endpoints) == SomeAccepts(Side(endpoints, isPrivate))
    ensures Honest(r, endpoints)
  {
    SideIs(endpoints, isPrivate);
    var side := Side(endpoints, isPrivate);
    if r.txHash.Some? {
      var k :| 0 <= k < |side| && side[k].answer == Ok(r.txHash.value) && side[k].host == r.firstSuccess.value;
      var e := side[k];
      assert e in endpoints;
      var i :| 0 <= i < |endpoints| && endpoints[i] == e;
    }
  }

  /** No public endpoint is contacted when a private one accepts; otherwise only public errors are reported. */
  method BroadcastPrivateFirst(endpoints: seq<Endpoint>) returns (r: BroadcastResult, ghost contacted: seq<Endpoint>)
    ensures Honest(r, endpoints) && r.successCount == (if r.txHash.Some? then 1 else 0)
    ensures contacted == if SomeAccepts(Side(endpoints, true)) then Side(endpoints, true)
                         else Side(endpoints, true) + Side(endpoints, false)
    ensures r.failureCount == |r.errors|
    ensures r.txHash.None? ==> multiset(r.errors) == multiset(Errors(Side(endpoints, false)))
  {
    var private_, public_ := Side(endpoints, true), Side(endpoints, false);
    SidesAccept(endpoints);
    contacted := private_;
    if private_ != [] {
      r := Race(private_);
      if r.txHash.Some? {
        HonestOfSide(endpoints, true, r);
        return;
      }
    }
    contacted := contacted + public_;
    r := BroadcastToSubset(public_);
    HonestOfSide(endpoints, false, r);
  }

  /** Unlike a race of the whole list, a subset without endpoints reports nothing at all. */
  method BroadcastToSubset(endpoints: seq<Endpoint>) returns (r: BroadcastResult)
    ensures Honest(r, endpoints) && r.successCount == (if r.txHash.Some? then 1 else 0)
    ensures r.failureCount == |r.errors| && multiset(r.errors) <= multiset(Errors(endpoints))
    ensures r.txHash.None? ==> multiset(r.errors) == multiset(Errors(endpoints))
  {
    if endpoints == [] {
      return BroadcastResult(None, 0, 0, [], None);
    }
    r := Race(endpoints);
  }

  // ---------- Agreement ----------

  /**
   * Whether a hash comes back depends on the answers alone: not on the strategy, nor on completion
   * order. The strategy decides who is contacted and what is reported.
   */
  method Broadcast(strategy: Strategy, endpoints: seq<Endpoint>) returns (r: BroadcastResult, ghost contacted: seq<Endpoint>)
    ensures r.txHash.Some? <==> exists k | 0 <= k < |endpoints| :: endpoints[k].answer.Ok?
    ensures Honest(r, endpoints)
    ensures strategy == RaceAll ==>
              && contacted == endpoints && r.successCount == (if r.txHash.Some? then 1 else 0)
              && (r.txHash.None? && endpoints != [] ==> multiset(r.errors) == multiset(Errors(endpoints)))
              && (endpoints == [] ==> r.errors == [HostError("none", RpcError("No endpoints configured"))])
    ensures strategy == BroadcastAll ==>
              && contacted == endpoints && r.errors == Errors(endpoints) && r.successCount == Acceptors(endpoints)
              && (r.txHash.Some? ==> SomeFirst(endpoints, r.txHash.value, r.firstSuccess.value))
    ensures strategy == PriorityOrdered ==>
              && contacted <= endpoints && r.errors == Errors(contacted)
              && (r.txHash.None? ==> contacted == endpoints)
              && (r.txHash.Some? ==> contacted != [] && contacted[|contacted| - 1].answer == Ok(r.txHash.value)
                                     && !SomeAccepts(contacted[..|contacted| - 1]))
    ensures strategy == PrivateFirst ==>
              && (forall e | e in endpoints && e.isPrivate :: e in contacted)
              && (forall e | e in endpoints && !e.isPrivate ::
                    e in contacted <==> !exists p | p in endpoints :: p.isPrivate && p.answer.Ok?)
  {
    contacted := endpoints;
    if strategy == RaceAll {
      r := BroadcastRace(endpoints);
    } else if strategy == BroadcastAll {
      r := BroadcastToAll(endpoints);
    } else if strategy == PriorityOrdered {
      r, contacted := BroadcastPriority(endpoints);
    } else {
      r, contacted := BroadcastPrivateFirst(endpoints);
      SideIs(endpoints, true);
      SideIs(endpoints, false);
      AcceptsIn(Side(endpoints, true));
    }
  }

  // ---------- Sorting by priority ----------

  function Insert(e: Endpoint, sorted: seq<Endpoint>): seq<Endpoint> {
    if sorted == [] || e.priority <= sorted[0].priority then [e] + sorted else [sorted[0]] + Insert(e, sorted[1..])
  }

  function SortByPriority(endpoints: seq<Endpoint>): seq<Endpoint> {
    if endpoints == [] then [] else Insert(endpoints[0], SortByPriority(endpoints[1..]))
  }

  ghost predicate IsSorted(endpoints: seq<Endpoint>) {
    forall i, j | 0 <= i < j < |endpoints| :: endpoints[i].priority <= endpoints[j].priority
  }

  function OfPriority(endpoints: seq<Endpoint>, p: nat): seq<Endpoint> {
    if endpoints == [] then []
    else (if endpoints[0].priority == p then [endpoints[0]] else []) + OfPriority(endpoints[1..], p)
  }

  /** Sorted, with the endpoints of each priority in the order in which they were added. */
  lemma {:induction false} SortIsStable(endpoints: seq<Endpoint>, p: nat)
    ensures IsSorted(SortByPriority(endpoints))
    ensures OfPriority(SortByPriority(endpoints), p) == OfPriority(endpoints, p)
  {
    if endpoints != [] {
      SortIsStable(endpoints[1..], p);
      InsertSorts(endpoints[0], SortByPriority(endpoints[1..]));
      InsertKeepsOrder(endpoints[0], SortByPriority(endpoints[1..]), p);
    }
  }

  lemma {:induction false} InsertSorts(e: Endpoint, sorted: seq<Endpoint>)
    requires IsSorted(sorted)
    ensures IsSorted(Insert(e, sorted))
    ensures forall k | 0 <= k < |Insert(e, sorted)| :: Insert(e, sorted)[k] == e || Insert(e, sorted)[k] in sorted
  {
    if sorted != [] && sorted[0].priority < e.priority {
      var head, tail := sorted[0], sorted[1..];
      InsertSorts(e, tail);
      var rest := Insert(e, tail);
      forall k | 0 <= k < |rest| ensures head.priority <= rest[k].priority {
        if rest[k] in tail {
          var i :| 0 <= i < |tail| && tail[i] == rest[k];
          assert sorted[i + 1] == rest[k];
        }
      }
    }
  }

  function IfPriority(e: Endpoint, p: nat): seq<Endpoint> {
    if e.priority == p then [e] else []
  }

  lemma OfPriorityCons(e: Endpoint, rest: seq<Endpoint>, p: nat)
    ensures OfPriority([e] + rest, p) == IfPriority(e, p) + OfPriority(rest, p)
  {
    assert ([e] + rest)[1..] == rest;
  }

  lemma {:induction false} InsertKeepsOrder(e: Endpoint, sorted: seq<Endpoint>, p: nat)
    ensures OfPriority(Insert(e, sorted), p) == IfPriority(e, p) + OfPriority(sorted, p)
  {
    if sorted == [] || e.priority <= sorted[0].priority {
      OfPriorityCons(e, sorted, p);
    } else {
      var head, tail := sorted[0], sorted[1..];
      InsertKeepsOrder(e, tail, p);
      OfPriorityCons(head, Insert(e, tail), p);
      OfPriorityCons(head, tail, p);
      assert sorted == [head] + tail;
      DistinctSwap(IfPriority(head, p), IfPriority(e, p), OfPriority(tail, p));
    }
  }

  lemma DistinctSwap(a: seq<Endpoint>, b: seq<Endpoint>, c: seq<Endpoint>)
    requires a == [] || b == []
    ensures a + (b + c) == b + (a + c)
  {
  }

  // ---------- Trying the best endpoint first ----------

  /** What is contacted is in priority order, and nothing better than it is left untried. */
  ghost predicate TriedInOrder(endpoints: seq<Endpoint>) {
    var c := Contacted(endpoints);
    && IsSorted(c)
    && forall i, j | 0 <= i < |c| <= j < |endpoints| :: c[i].priority <= endpoints[j].priority
  }

  /** The same endpoints, giving these answers. */
  function Answering(endpoints: seq<Endpoint>, answers: seq<Answer>): seq<Endpoint>
    requires |answers| == |endpoints|
  {
    seq(|endpoints|, k requires 0 <= k < |endpoints| => endpoints[k].(answer := answers[k]))
  }

  lemma {:induction false} ContactedIsPrefix(endpoints: seq<Endpoint>)
    ensures Contacted(endpoints) <= endpoints
    ensures forall i | 0 <= i < |Contacted(endpoints)| - 1 :: Contacted(endpoints)[i].answer.Err?
    ensures !SomeAccepts(endpoints) ==> Contacted(endpoints) == endpoints
  {
    if endpoints != [] {
      ContactedIsPrefix(endpoints[1..]);
      assert endpoints == [endpoints[0]] + endpoints[1..];
      if SomeAccepts(endpoints[1..]) {
        TailAccepts(endpoints);
      }
    }
  }

  lemma TailAccepts(endpoints: seq<Endpoint>)
    requires endpoints != [] && SomeAccepts(endpoints[1..])
    ensures SomeAccepts(endpoints)
  {
    var k :| 0 <= k < |endpoints[1..]| && endpoints[1..][k].answer.Ok?;
    assert endpoints[k + 1].answer.Ok?;
  }

  lemma SortedIsTriedInOrder(endpoints: seq<Endpoint>)
    requires IsSorted(endpoints)
    ensures TriedInOrder(endpoints)
  {
    ContactedIsPrefix(endpoints);
    var c := Contacted(endpoints);
    assert forall i | 0 <= i < |c| :: c[i] == endpoints[i];
  }

  /**
   * A list is tried best first whatever its endpoints answer exactly when it is sorted. `new` takes
   * any list as it is; the builder, and adding an endpoint, sort it.
   */
  lemma TriedInOrderIff(endpoints: seq<Endpoint>)
    ensures IsSorted(endpoints) <==>
            forall answers: seq<Answer> | |answers| == |endpoints| :: TriedInOrder(Answering(endpoints, answers))
  {
    if IsSorted(endpoints) {
      forall answers: seq<Answer> | |answers| == |endpoints| ensures TriedInOrder(Answering(endpoints, answers)) {
        SortedIsTriedInOrder(Answering(endpoints, answers));
      }
    }
    if forall answers: seq<Answer> | |answers| == |endpoints| :: TriedInOrder(Answering(endpoints, answers)) {
      var refusals: seq<Answer> := seq(|endpoints|, _ => Err(NO_ENDPOINTS));
      var refusing := Answering(endpoints, refusals);
      assert TriedInOrder(refusing);
      ContactedIsPrefix(refusing);
      assert forall i | 0 <= i < |endpoints| :: refusing[i].priority == endpoints[i].priority;
    }
  }

  class TransactionBroadcaster {
    var endpoints: seq<Endpoint>

    /** `new`: the list as given. */
    constructor (endpoints: seq<Endpoint>)
      ensures this.endpoints == endpoints
    {
      this.endpoints := endpoints;
    }

    /** The builder's `build`. */
    constructor Build(added: seq<Endpoint>)
      ensures endpoints == SortByPriority(added) && IsSorted(endpoints)
    {
      endpoints := SortByPriority(added);
      new;
      SortIsStable(added, 0);
    }

    method AddEndpoint(e: Endpoint)
      modifies this
      ensures endpoints == SortByPriority(old(endpoints) + [e]) && IsSorted(endpoints)
    {
      endpoints := SortByPriority(endpoints + [e]);
      SortIsStable(old(endpoints) + [e], 0);
    }

    /**
     * Contacts the sorted prefix that ends at the first acceptor: everything better than the last
     * endpoint contacted was contacted too, and refused.
     */
    method SendByPriority() returns (r: BroadcastResult, ghost contacted: seq<Endpoint>)
      requires IsSorted(endpoints)
      ensures Honest(r, endpoints) && r.errors == Errors(contacted)
      ensures contacted == Contacted(endpoints) <= endpoints && TriedInOrder(endpoints)
      ensures contacted != [] ==>
                forall e | e in endpoints && e.priority < contacted[|contacted| - 1].priority ::
                  e in contacted && e.answer.Err?
    {
      r, contacted := BroadcastPriority(endpoints);
      SortedIsTriedInOrder(endpoints);
      ContactedIsPrefix(endpoints);
      if contacted != [] {
        BetterOnesRefused(endpoints);
      }
    }
  }

  lemma BetterOnesRefused(endpoints: seq<Endpoint>)
    requires IsSorted(endpoints) && Contacted(endpoints) != []
    ensures var c := Contacted(endpoints);
            forall e | e in endpoints && e.priority < c[|c| - 1].priority :: e in c && e.answer.Err?
  {
    ContactedIsPrefix(endpoints);
    var c := Contacted(endpoints);
    forall e | e in endpoints && e.priority < c[|c| - 1].priority ensures e in c && e.answer.Err? {
      var k :| 0 <= k < |endpoints| && endpoints[k] == e;
      assert endpoints[|c| - 1] == c[|c| - 1];
      assert k < |c| - 1 && c[k] == e;
    }
  }
}
