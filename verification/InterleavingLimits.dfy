/** Where the promises of the nonce tracker stop, each with a run that crosses the line. */
module InterleavingLimits {
  import opened Words
  import opened Interleaving
  import opened InterleavingSafety
  import opened InterleavingRuns
  import opened InterleavingSyncs
  import opened InterleavingAlone
  import Nonce

  /** The program counter of the lock holder, or that of a task that does not matter. */
  ghost function Holder(s: State): Pc {
    if s.lock.None? || s.lock.value !in s.tasks then ReserveStart else s.tasks[s.lock.value]
  }

  /** The floor the operation that holds the lock has committed to. */
  ghost function FloorAt(m: Memory, pc: Pc): nat {
    if MidRewind(pc) then pc.chain
    else if pc.Syncing? && (pc.syncAt.Count? || pc.syncAt.Floor?) then Max(m.synced, pc.chain)
    else m.synced
  }

  /** The free nonces below the counter: the gaps, and one that a collapse has just taken out of them. */
  ghost function WaitingAt(m: Memory, pc: Pc): set<nat> {
    if MidRewind(pc) then {}
    else if pc.Collapsing? && pc.collapseAt.Cas? then m.gaps + {pc.collapseAt.previous}
    else m.gaps
  }

  lemma FetchIsLeastFreeIff(m: Memory, pc: Pc)
    requires PhaseInv(m, pc) && Below(m)
    ensures Nonce.Allocator(FloorAt(m, pc), m.owner.Keys).IsLeastFree(m.current) <==>
            FloorAt(m, pc) <= m.current && WaitingAt(m, pc) == {}
  {
    var lo, waiting := FloorAt(m, pc), WaitingAt(m, pc);
    WaitingIsFree(m, pc);
    if waiting != {} {
      var g :| g in waiting;
      assert lo <= g < m.current && g !in m.owner;
    }
  }

  lemma WaitingIsFree(m: Memory, pc: Pc)
    requires PhaseInv(m, pc)
    ensures var lo, waiting := FloorAt(m, pc), WaitingAt(m, pc);
            && (forall n | n in waiting :: lo <= n < m.current && n !in m.owner)
            && (forall n | lo <= n < m.current :: n in waiting || n in m.owner)
  {
    if MidRewind(pc) {
      assert AllOwned(m, pc.chain);
    } else {
      assert Split(m, FloorAt(m, pc), if pc.Collapsing? && pc.collapseAt.Cas? then {pc.collapseAt.previous} else {});
    }
  }

  /**
   * A nonce popped from the gaps is always the least free one. A nonce fetched from the counter is,
   * whatever the lock holder is in the middle of, exactly when the counter is not below the floor and
   * no free nonce waits below the counter; with the lock free, when no gap waits.
   */
  lemma IssuesLeastFreeIff(s: State, a: Action)
    requires Reachable(s) && !s.mem.exhausted && Enabled(s, a) && Issued(s, a).Some?
    ensures s.tasks[a.t] == Reserving(First) ==> Alloc(s).IsLeastFree(Issued(s, a).value)
    ensures s.tasks[a.t].ReserveFetch? ==>
              (Nonce.Allocator(FloorAt(s.mem, Holder(s)), s.mem.owner.Keys).IsLeastFree(Issued(s, a).value) <==>
               FloorAt(s.mem, Holder(s)) <= s.mem.current && WaitingAt(s.mem, Holder(s)) == {})
    ensures s.tasks[a.t].ReserveFetch? && s.lock.None? ==>
              (Alloc(s).IsLeastFree(Issued(s, a).value) <==> s.mem.gaps == {})
  {
    ReachableInv(s);
    IssuedBySomeone(s, a);
    assert Holder(s) == HolderPc(s);
    if s.tasks[a.t] == Reserving(First) {
      NeverIssuedTwice(s, a);
      assert s.lock == Some(a.t);
      forall m | s.mem.synced <= m < Issued(s, a).value ensures m in s.mem.owner {
        assert m !in s.mem.gaps;
      }
    } else {
      FetchIsLeastFreeIff(s.mem, Holder(s));
    }
  }

  /** Under concurrency a reservation can pass over a free nonce: it read the gap count too early. */
  lemma GapCanBePassedOver() returns (s: State, a: Action)
    ensures Reachable(s) && !s.mem.exhausted && Enabled(s, a)
    ensures s.lock.None? && Issued(s, a) == Some(2) && Alloc(s).IsLeastFree(0)
  {
    var s0 := TwoHeldOneFetching();
    s := ReleaseIntoGap(s0, 1);
    a := Advance(3);
  }

  lemma TwoHeldOneFetching() returns (s: State)
    ensures Reachable(s) && s.lock.None? && !s.mem.exhausted
    ensures s.tasks == map[1 := Held(0), 2 := Held(1), 3 := ReserveFetch]
    ensures s.mem.current == 2 && s.mem.synced == 0 && s.mem.gaps == {} && s.mem.owner == map[0 := 1, 1 := 2]
  {
    var s0 := Start(0);
    var s1 := ReserveAlone(s0, 1);
    var s2 := ReserveAlone(s1, 2);
    s := ReserveChecked(s2, 3);
  }

  /** Past the last 64-bit nonce the counter wraps, and a nonce can be handed out while outstanding. */
  lemma WrapBreaksUniqueness() returns (s: State, a: Action)
    ensures Reachable(s) && s.mem.exhausted && Enabled(s, a)
    ensures Issued(s, a) == Some(U64_MAX) && U64_MAX in s.mem.owner && 1 in s.tasks && s.tasks[1] == Held(U64_MAX)
  {
    var s1 := LastNonceHeld();
    assert 1 in s1.tasks;
    s, a := OwnedAboveIsReissued(s1, U64_MAX, 2, 3);
  }

  /**
   * From an idle state without gaps, every outstanding nonce at or above the counter can be handed
   * out again, after one sync: there are such nonces only once the counter has wrapped.
   */
  lemma OwnedAboveIsReissued(s: State, n: u64, t: TaskId, u: TaskId) returns (s': State, a: Action)
    requires Reachable(s) && s.lock.None? && s.mem.gaps == {} && s.mem.gapCount == 0
    requires n in s.mem.owner && s.mem.current <= n && t !in s.tasks && u !in s.tasks && t != u
    ensures s.mem.exhausted && s'.mem.exhausted
    ensures Reachable(s') && Enabled(s', a) && Issued(s', a) == Some(n) && n in s'.mem.owner
    ensures forall v | v in s.tasks :: v in s'.tasks && s'.tasks[v] == s.tasks[v]
  {
    ReachableInv(s);
    var synced := s;
    if s.mem.current < n {
      synced := SyncAlone(s, t, n);
    }
    s' := ReserveChecked(synced, u);
    a := Advance(u);
  }

  lemma LastNonceHeld() returns (s: State)
    ensures Reachable(s) && s.lock.None? && s.mem.exhausted
    ensures s.tasks == map[1 := Held(U64_MAX)]
    ensures s.mem.current == 0 && s.mem.gaps == {} && s.mem.gapCount == 0 && s.mem.owner == map[U64_MAX := 1]
  {
    var s0 := Start(U64_MAX);
    s := ReserveAlone(s0, 1);
  }
}
