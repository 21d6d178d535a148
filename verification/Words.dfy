/** Machine words of the wallet, the option type, and facts about finite ranges. */
module Words {

  const U64_LIMIT: nat := 0x1_0000_0000_0000_0000
  const U64_MAX: nat := U64_LIMIT - 1
  const U256_LIMIT: nat := 0x1_0000_0000_0000_0000_0000_0000_0000_0000_0000_0000_0000_0000_0000_0000_0000_0000
  const U256_MAX: nat := U256_LIMIT - 1

  type u64 = n: nat | n < U64_LIMIT
  type u256 = n: nat | n < U256_LIMIT

  datatype Option<+T> = None | Some(value: T)

  function Max(a: nat, b: nat): nat {
    if a < b then b else a
  }

  function Min(a: nat, b: nat): nat {
    if a < b then a else b
  }

  /** The value an `AtomicU64` holds after `fetch_add(1)`. */
  function WrapInc(n: u64): u64 {
    if n == U64_MAX then 0 else n + 1
  }

  /** The value an `AtomicU64` holds after `fetch_sub(1)`. */
  function WrapDec(n: u64): u64 {
    if n == 0 then U64_MAX else n - 1
  }

  /** A set of numbers below `hi` and at or above `lo` has at most `hi - lo` elements. */
  lemma {:induction false} RangeBoundsCardinality(s: set<nat>, lo: nat, hi: nat)
    requires lo <= hi
    requires forall n | n in s :: lo <= n < hi
    ensures |s| <= hi - lo
    decreases hi - lo
  {
    if lo == hi {
      assert s == {};
    } else {
      var top := hi - 1;
      RangeBoundsCardinality(s - {top}, lo, top);
      assert |s| <= |s - {top}| + 1;
    }
  }

  /** Every non-empty finite set of numbers has a least element. */
  lemma LeastExists(s: set<nat>)
    requires s != {}
    ensures exists least :: least in s && forall n | n in s :: least <= n
  {
    var least :| least in s;
    while exists n :: n in s && n < least
      invariant least in s
      decreases least
    {
      var smaller :| smaller in s && smaller < least;
      least := smaller;
    }
  }

  /** The least of a set of nonces, as an ordered set yields it first. */
  method Lowest(nonces: set<u64>) returns (lowest: u64)
    requires nonces != {}
    ensures lowest in nonces && forall n | n in nonces :: lowest <= n
  {
    LeastExists(nonces);
    lowest :| lowest in nonces && forall n | n in nonces :: lowest <= n;
  }
}
