/**
 * The local nonce allocator and the guard that owns one reservation.
 *
 * `Allocator` is what the tracker is for: a floor and the set of nonces handed out and not
 * returned. `NonceTracker` holds what the program stores: a counter, the recycled gaps below it
 * and their cached count. `Canonical` ties the two together, and every operation keeps it.
 */
module Nonce {
  import opened Words

  datatype Allocator = Allocator(synced: nat, out: set<nat>) {

    /** The nonce a reservation should hand out. */
    ghost predicate IsLeastFree(n: nat) {
      synced <= n && n !in out && forall m | synced <= m < n :: m in out
    }

    ghost predicate NoneAtOrAbove(c: nat) {
      forall n | n in out :: n < c
    }

    /** The least counter at or above the floor with no outstanding nonce at or above it. */
    ghost predicate IsTop(c: nat) {
      synced <= c && NoneAtOrAbove(c) && forall d | synced <= d < c :: !NoneAtOrAbove(d)
    }

    ghost function Issue(n: nat): Allocator {
      this.(out := out + {n})
    }

    ghost function Return(n: nat): Allocator {
      this.(out := out - {n})
    }

    ghost function SyncTo(chain: nat): Allocator {
      this.(synced := Max(synced, chain))
    }
  }

  /** The stored form of an allocator: counter at the top, gaps exactly the free nonces below it. */
  ghost predicate Canonical(a: Allocator, current: nat, gaps: set<nat>, gapCount: nat) {
    && a.IsTop(current)
    && (forall n: nat :: n in gaps <==> a.synced <= n < current && n !in a.out)
    && gapCount == |gaps|
  }

  /** The top is the floor, or sits right above an outstanding nonce. */
  lemma TopIsTight(a: Allocator, c: nat)
    requires a.synced <= c && a.NoneAtOrAbove(c)
    ensures a.IsTop(c) <==> c == a.synced || c - 1 in a.out
  {
    if a.IsTop(c) && c != a.synced {
      assert !a.NoneAtOrAbove(c - 1);
    }
    if c != a.synced && c - 1 in a.out {
      forall d | a.synced <= d < c ensures !a.NoneAtOrAbove(d) {
        assert c - 1 in a.out && d <= c - 1;
      }
    }
  }

  /** Equal abstract states are stored identically, whatever history led to them. */
  lemma CanonicalUnique(a: Allocator, current: nat, gaps: set<nat>, gapCount: nat,
                        current': nat, gaps': set<nat>, gapCount': nat)
    requires Canonical(a, current, gaps, gapCount)
    requires Canonical(a, current', gaps', gapCount')
    ensures current == current' && gaps == gaps' && gapCount == gapCount'
  {
    assert current == current';
    assert forall n: nat :: n in gaps <==> n in gaps';
    assert gaps == gaps';
  }

  /** Every abstract state has a stored form; `bound` is any number past its outstanding nonces. */
  lemma {:induction false} CanonicalExists(a: Allocator, bound: nat) returns (current: nat, gaps: set<nat>)
    requires a.synced <= bound && a.NoneAtOrAbove(bound)
    ensures current <= bound && Canonical(a, current, gaps, |gaps|)
    decreases bound
  {
    if bound == a.synced || bound - 1 in a.out {
      current := bound;
      gaps := set n: nat | a.synced <= n < bound && n !in a.out;
      TopIsTight(a, bound);
    } else {
      assert a.NoneAtOrAbove(bound - 1);
      current, gaps := CanonicalExists(a, bound - 1);
    }
  }

  /** The first gap, or the counter when there is no gap, is the least free nonce. */
  lemma StoredNextIsLeastFree(a: Allocator, current: nat, gaps: set<nat>, gapCount: nat, next: nat)
    requires Canonical(a, current, gaps, gapCount)
    requires if gaps == {} then next == current else next in gaps && forall g | g in gaps :: next <= g
    ensures a.IsLeastFree(next)
    ensures forall n: nat | a.IsLeastFree(n) :: n == next
  {
    forall m | a.synced <= m < next ensures m in a.out {
      assert m in a.out || m in gaps;
    }
    assert a.IsLeastFree(next);
    forall n: nat | a.IsLeastFree(n) ensures n == next {
      assert n !in a.out && next !in a.out;
    }
  }

  /** Handing the least free nonce back makes it the least free nonce again. */
  lemma ReturnUndoesIssue(a: Allocator, n: nat)
    requires a.IsLeastFree(n)
    ensures a.Issue(n).Return(n) == a
    ensures !a.Issue(n).IsLeastFree(n)
    ensures forall m: nat | a.Issue(n).IsLeastFree(m) :: n < m
  {
    assert a.Issue(n).Return(n).out == a.out;
    forall m: nat | a.Issue(n).IsLeastFree(m) ensures n < m {
      assert m !in a.out;
    }
  }

  class NonceTracker {
    var current: u64
    var pendingCount: u64
    var syncedNonce: u64
    var gaps: set<u64>
    var gapCount: u64

    /** Nonces handed out and not returned. */
    ghost var out: set<nat>
    /** True once `current` has wrapped past the last 64-bit nonce. */
    ghost var exhausted: bool

    ghost function Model(): Allocator
      reads this
    {
      Allocator(syncedNonce, out)
    }

    ghost predicate Valid()
      reads this
    {
      exhausted || Canonical(Model(), current, gaps, gapCount)
    }

    constructor (initialNonce: u64)
      ensures Valid() && !exhausted
      ensures Model() == Allocator(initialNonce, {})
      ensures pendingCount == 0
    {
      current, pendingCount, syncedNonce := initialNonce, 0, initialNonce;
      gaps, gapCount := {}, 0;
      out, exhausted := {}, false;
      new;
      TopIsTight(Model(), current);
    }

    /** Hand out the first gap, or advance the counter. */
    method ReserveNextNonce() returns (nonce: u64)
      requires Valid()
      modifies this
      ensures Valid()
      ensures exhausted <==> old(exhausted) || (old(gaps) == {} && old(current) == U64_MAX)
      ensures !old(exhausted) ==>
                && old(syncedNonce) <= nonce && nonce !in old(out)
                && forall m: nat | old(syncedNonce) <= m < nonce :: m in old(out)
      ensures out == old(out) + {nonce} && syncedNonce == old(syncedNonce)
      ensures pendingCount == old(pendingCount)
    {
      ghost var before := Model();
      if gapCount > 0 {
        if gaps != {} {
          var first := Lowest(gaps);
          if !exhausted {
            StoredNextIsLeastFree(before, current, gaps, gapCount, first);
          }
          gaps := gaps - {first};
          gapCount := WrapDec(gapCount);
          out := out + {first};
          if !exhausted {
            TopIsTight(before, current);
            TopIsTight(Model(), current);
          }
          return first;
        }
      }
      nonce := current;
      if !exhausted {
        StoredNextIsLeastFree(before, current, gaps, gapCount, current);
      }
      exhausted := exhausted || (gaps == {} && current == U64_MAX);
      current := WrapInc(current);
      out := out + {nonce};
      if !exhausted {
        assert forall n | n in before.out :: n < nonce;
        TopIsTight(Model(), current);
      }
    }

    /** Hand out a nonce without a guard. */
    method GetAndIncrement() returns (nonce: u64)
      requires Valid()
      modifies this
      ensures Valid()
      ensures exhausted <==> old(exhausted) || (old(gaps) == {} && old(current) == U64_MAX)
      ensures !old(exhausted) ==>
                && old(syncedNonce) <= nonce && nonce !in old(out)
                && forall m: nat | old(syncedNonce) <= m < nonce :: m in old(out)
      ensures out == old(out) + {nonce} && syncedNonce == old(syncedNonce)
      ensures pendingCount == WrapInc(old(pendingCount))
    {
      pendingCount := WrapInc(pendingCount);
      nonce := ReserveNextNonce();
    }

    /** The nonce the next reservation would hand out. */
    method EffectiveNextNonce() returns (next: u64)
      requires Valid()
      ensures !exhausted ==>
                && syncedNonce <= next && next !in out
                && forall m: nat | syncedNonce <= m < next :: m in out
      ensures gaps == {} ==> next == current
      ensures gaps != {} ==> next in gaps && forall g | g in gaps :: next <= g
    {
      if gaps != {} {
        next := Lowest(gaps);
      } else {
        next := current;
      }
      if !exhausted {
        StoredNextIsLeastFree(Model(), current, gaps, gapCount, next);
      }
    }

    /** One fewer pending transaction, never below zero. */
    method DecrementPending()
      requires Valid()
      modifies this`pendingCount
      ensures Valid()
      ensures pendingCount == if old(pendingCount) == 0 then 0 else old(pendingCount) - 1
    {
      if pendingCount > 0 {
        pendingCount := pendingCount - 1;
      }
    }

    /**
     * Return a nonce. Any number may be passed: one below the floor, one already free and one
     * never issued leave the stored state alone.
     */
    method Release(usedNonce: u64)
      requires Valid()
      modifies this
      ensures Valid() && exhausted == old(exhausted)
      ensures out == old(out) - {usedNonce} && syncedNonce == old(syncedNonce)
      ensures pendingCount == if old(pendingCount) == 0 then 0 else old(pendingCount) - 1
    {
      DecrementPending();
      RecycleNonce(usedNonce);
    }

    method RecycleNonce(usedNonce: u64)
      requires Valid()
      modifies this
      ensures Valid() && exhausted == old(exhausted)
      ensures out == old(out) - {usedNonce} && syncedNonce == old(syncedNonce)
      ensures pendingCount == old(pendingCount)
    {
      ghost var before := Model();
      if usedNonce < syncedNonce {
        out := out - {usedNonce};
        if !exhausted {
          TopIsTight(before, current);
          TopIsTight(Model(), current);
        }
        return;
      }
      if usedNonce < U64_MAX && current == usedNonce + 1 {
        if !exhausted {
          TopIsTight(before, current);
        }
        out := out - {usedNonce};
        current := usedNonce;
        CollapseTopGaps();
        return;
      }
      if usedNonce >= syncedNonce && usedNonce < current && usedNonce !in gaps {
        gaps := gaps + {usedNonce};
        if !exhausted {
          RangeBoundsCardinality(gaps, 0, current);
        }
        gapCount := WrapInc(gapCount);
      }
      out := out - {usedNonce};
      if !exhausted {
        TopIsTight(before, current);
        TopIsTight(Model(), current);
      }
    }

    /** Lower the counter over the gaps directly below it. */
    method CollapseTopGaps()
      requires !exhausted ==>
                 && syncedNonce <= current && Model().NoneAtOrAbove(current)
                 && (forall n: nat :: n in gaps <==> syncedNonce <= n < current && n !in out)
                 && gapCount == |gaps|
      modifies this`current, this`gaps, this`gapCount
      ensures Valid()
    {
      while true
        invariant !exhausted ==>
                    && syncedNonce <= current && Model().NoneAtOrAbove(current)
                    && (forall n: nat :: n in gaps <==> syncedNonce <= n < current && n !in out)
                    && gapCount == |gaps|
        decreases |gaps|
      {
        if current == 0 || current - 1 < syncedNonce || current - 1 !in gaps {
          if !exhausted {
            TopIsTight(Model(), current);
          }
          return;
        }
        gaps := gaps - {current - 1};
        current := current - 1;
        gapCount := WrapDec(gapCount);
      }
    }

    /** Advance to the chain's nonce, never rewinding. True when the counter moved. */
    method SyncForward(chainNonce: u64) returns (advanced: bool)
      requires Valid()
      modifies this
      ensures Valid() && exhausted == old(exhausted)
      ensures out == old(out) && syncedNonce == Max(old(syncedNonce), chainNonce)
      ensures current == Max(old(current), chainNonce)
      ensures advanced <==> old(current) < chainNonce
      ensures pendingCount == old(pendingCount)
    {
      ghost var before := Model();
      if !exhausted {
        TopIsTight(before, current);
      }
      gaps := set n | n in gaps && n >= chainNonce;
      if !exhausted {
        RangeBoundsCardinality(gaps, 0, current);
      }
      gapCount := |gaps| % U64_LIMIT;
      syncedNonce := Max(syncedNonce, chainNonce);
      if chainNonce <= current {
        advanced := false;
      } else {
        current := chainNonce;
        advanced := true;
      }
      if !exhausted {
        TopIsTight(Model(), current);
      }
    }

    /**
     * Rewind to the chain's nonce, forgetting every nonce at or above it. True when it rewound. The
     * chain's nonce is then the next one, even after the counter had wrapped.
     */
    method RecoverStalled(chainNonce: u64) returns (rewound: bool)
      requires Valid()
      modifies this
      ensures Valid()
      ensures exhausted <==> old(exhausted) && !rewound
      ensures rewound <==> chainNonce < old(current)
      ensures rewound ==> syncedNonce == chainNonce && current == chainNonce && gaps == {}
      ensures rewound ==> forall n: nat :: n in out <==> n in old(out) && n < chainNonce
      ensures rewound ==> Model().IsLeastFree(chainNonce) && forall n: nat | Model().IsLeastFree(n) :: n == chainNonce
      ensures !rewound ==> Model() == old(Model()) && current == old(current) && gaps == old(gaps)
      ensures pendingCount == old(pendingCount)
    {
      if chainNonce >= current {
        return false;
      }
      current := chainNonce;
      gaps := {};
      gapCount := 0;
      syncedNonce := chainNonce;
      out := set n | n in out && n < chainNonce;
      exhausted := false;
      TopIsTight(Model(), current);
      StoredNextIsLeastFree(Model(), current, gaps, gapCount, current);
      return true;
    }

    /** Reserve a nonce under a guard. */
    method Reserve() returns (guard: ReservedNonce)
      requires Valid()
      modifies this
      ensures Valid()
      ensures exhausted <==> old(exhausted) || (old(gaps) == {} && old(current) == U64_MAX)
      ensures fresh(guard) && guard.tracker == this && guard.state == Held
      ensures !old(exhausted) ==>
                && old(syncedNonce) <= guard.nonce && guard.nonce !in old(out)
                && forall m: nat | old(syncedNonce) <= m < guard.nonce :: m in old(out)
      ensures out == old(out) + {guard.nonce} && syncedNonce == old(syncedNonce)
      ensures pendingCount == WrapInc(old(pendingCount))
    {
      pendingCount := WrapInc(pendingCount);
      var nonce := ReserveNextNonce();
      guard := new ReservedNonce(this, nonce);
    }
  }

  datatype GuardState = Held | Broadcasting | Committed | Released

  /** Owner of one reserved nonce. */
  class ReservedNonce {
    const tracker: NonceTracker
    const nonce: u64
    var state: GuardState

    constructor (tracker: NonceTracker, nonce: u64)
      ensures this.tracker == tracker && this.nonce == nonce && state == Held
    {
      this.tracker, this.nonce, state := tracker, nonce, Held;
    }

    method MarkBroadcasting() returns (ok: bool)
      modifies this
      ensures ok <==> old(state) == Held
      ensures state == if ok then Broadcasting else old(state)
    {
      if state != Held {
        return false;
      }
      state := Broadcasting;
      return true;
    }

    method Commit() returns (ok: bool)
      requires tracker.Valid()
      modifies this, tracker`pendingCount
      ensures tracker.Valid()
      ensures ok <==> old(state) == Held || old(state) == Broadcasting
      ensures state == if ok then Committed else old(state)
      ensures tracker.pendingCount ==
              if ok && old(tracker.pendingCount) > 0 then old(tracker.pendingCount) - 1 else old(tracker.pendingCount)
    {
      if state != Held && state != Broadcasting {
        return false;
      }
      tracker.DecrementPending();
      state := Committed;
      return true;
    }

    method Release() returns (ok: bool)
      requires tracker.Valid()
      modifies this, tracker
      ensures tracker.Valid() && tracker.exhausted == old(tracker.exhausted)
      ensures ok <==> old(state) == Held
      ensures state == if ok then Released else old(state)
      ensures tracker.Model() == if ok then old(tracker.Model()).Return(nonce) else old(tracker.Model())
      ensures !ok ==> unchanged(tracker)
    {
      if state != Held {
        return false;
      }
      tracker.Release(nonce);
      state := Released;
      return true;
    }

    method ReleaseRejectedBroadcast() returns (ok: bool)
      requires tracker.Valid()
      modifies this, tracker
      ensures tracker.Valid() && tracker.exhausted == old(tracker.exhausted)
      ensures ok <==> old(state) == Broadcasting
      ensures state == if ok then Released else old(state)
      ensures tracker.Model() == if ok then old(tracker.Model()).Return(nonce) else old(tracker.Model())
      ensures !ok ==> unchanged(tracker)
    {
      if state != Broadcasting {
        return false;
      }
      tracker.Release(nonce);
      state := Released;
      return true;
    }

    /** What going out of scope does: only a held nonce is returned. */
    method Drop()
      requires tracker.Valid()
      modifies this, tracker
      ensures tracker.Valid() && tracker.exhausted == old(tracker.exhausted)
      ensures state == if old(state) == Held then Released else old(state)
      ensures old(state) == Held ==> tracker.Model() == old(tracker.Model()).Return(nonce)
      ensures old(state) != Held ==> unchanged(tracker)
    {
      if state == Held {
        tracker.Release(nonce);
        state := Released;
      }
    }
  }
}
