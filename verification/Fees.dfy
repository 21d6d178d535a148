/** Fee bumping with saturation, and the fees of a replacement or cancel transaction. */
module Fees {
  import opened Words
  import opened Transactions

  const BASIS: nat := 10_000
  const RBF_MIN_BUMP_BPS: u32 := 1250

  type u32 = n: nat | n < 0x1_0000_0000

  function SaturatingMul(a: nat, b: nat): u256 {
    Min(a * b, U256_MAX)
  }

  function SaturatingAdd(a: nat, b: nat): u256 {
    Min(a + b, U256_MAX)
  }

  /** A tenth of a thousandth of `product`, rounding up, with every step saturating. */
  function CeilDiv(product: u256): u256 {
    SaturatingAdd(product, BASIS - 1) / BASIS
  }

  /** `v` raised by `bps` basis points, rounding up. */
  function Bump(v: u256, bps: u32): u256 {
    CeilDiv(SaturatingMul(v, BASIS + bps))
  }

  /** A bid is at least `bps` basis points over a prior one. */
  predicate Outbids(bid: nat, prior: nat, bps: nat) {
    bid * BASIS >= prior * (BASIS + bps)
  }

  /** The least bid that is at least `bps` basis points over `v`. */
  ghost predicate IsLeastOutbid(bid: nat, v: nat, bps: nat) {
    Outbids(bid, v, bps) && forall r: nat | Outbids(r, v, bps) :: bid <= r
  }

  predicate ProductFits(product: nat) {
    product <= U256_MAX - U256_MAX % BASIS
  }

  /** The product `v * (10000 + bps)` leaves room to round up. */
  predicate BumpFits(v: u256, bps: u32) {
    ProductFits(v * (BASIS + bps))
  }

  const BUMP_CAP: nat := U256_MAX / BASIS

  lemma CeilDivOf(product: nat)
    ensures var bid := CeilDiv(Min(product, U256_MAX));
            && (ProductFits(product) ==> (bid - 1) * BASIS < product <= bid * BASIS)
            && (!ProductFits(product) ==> bid == BUMP_CAP && bid * BASIS < product)
            && bid <= BUMP_CAP
  {
  }

  lemma BumpOfProduct(v: u256, bps: u32, product: nat)
    requires product == v * (BASIS + bps)
    ensures BumpFits(v, bps) ==> (Bump(v, bps) - 1) * BASIS < product <= Bump(v, bps) * BASIS
    ensures !BumpFits(v, bps) ==> Bump(v, bps) == BUMP_CAP && Bump(v, bps) * BASIS < product
    ensures Bump(v, bps) <= BUMP_CAP
  {
    CeilDivOf(product);
  }

  /** Outbidding is a comparison with the product. */
  lemma OutbidsByProduct(bid: nat, v: nat, bps: nat, product: nat)
    requires product == v * (BASIS + bps)
    ensures Outbids(bid, v, bps) <==> product <= bid * BASIS
  {
  }

  lemma LeastOverProduct(bid: nat, r: nat, product: nat)
    requires (bid - 1) * BASIS < product <= r * BASIS
    ensures bid <= r
  {
  }

  /** The bump is the exact ceiling precisely when the product fits; otherwise it is the cap, short of it. */
  lemma BumpIsCeilingIff(v: u256, bps: u32)
    ensures IsLeastOutbid(Bump(v, bps), v, bps) <==> BumpFits(v, bps)
    ensures Outbids(Bump(v, bps), v, bps) <==> BumpFits(v, bps)
  {
    var product, bid := v * (BASIS + bps), Bump(v, bps);
    BumpOfProduct(v, bps, product);
    OutbidsByProduct(bid, v, bps, product);
    if BumpFits(v, bps) {
      forall r: nat | Outbids(r, v, bps) ensures bid <= r {
        OutbidsByProduct(r, v, bps, product);
        LeastOverProduct(bid, r, product);
      }
    }
  }

  lemma ProductIsMonotone(v: nat, w: nat, a: nat, b: nat)
    requires v <= w && a <= b
    ensures v * a <= w * b
  {
    assert v * a <= v * b <= w * b;
  }

  /** A larger fee or a larger bump never bumps to less, saturated or not. */
  lemma BumpIsMonotone(v: u256, w: u256, bps: u32, bps': u32)
    requires v <= w && bps <= bps'
    ensures Bump(v, bps) <= Bump(w, bps')
  {
    ProductIsMonotone(v, w, BASIS + bps, BASIS + bps');
  }

  /** A non-zero bump of a non-zero fee raises it precisely when the fee is below the cap. */
  lemma BumpRaisesIff(v: u256, bps: u32)
    requires v > 0 && bps > 0
    ensures Bump(v, bps) > v <==> v < BUMP_CAP
  {
    var product := v * (BASIS + bps);
    BumpOfProduct(v, bps, product);
    ProductIsMonotone(v, v, BASIS + 1, BASIS + bps);
  }

  /** At the top of the range a bump lowers the fee. */
  lemma BumpCanLower() returns (v: u256)
    ensures Bump(v, RBF_MIN_BUMP_BPS) < v
  {
    v := U256_MAX;
    BumpOfProduct(v, RBF_MIN_BUMP_BPS, v * (BASIS + RBF_MIN_BUMP_BPS));
  }

  /** In figures: a ceiling division by ten thousand while the product fits, and else the cap. */
  lemma BumpInFigures(v: u256, bps: u32)
    ensures v * (10_000 + bps) + 9_999 <= U256_MAX ==> Bump(v, bps) == (v * (10_000 + bps) + 9_999) / 10_000
    ensures v * (10_000 + bps) > U256_MAX ==> Bump(v, bps) == U256_MAX / 10_000
    ensures BumpFits(v, bps) <==> v * (10_000 + bps) <= U256_MAX - U256_MAX % 10_000
  {
    var product := v * (BASIS + bps);
    BumpOfProduct(v, bps, product);
    assert Bump(v, bps) == CeilDiv(Min(product, U256_MAX));
  }

  // ---------- Transactions ----------

  /** The same transaction with both fees raised; only dynamic-fee transactions have them. */
  function WithBumpedFees(tx: Transaction, bps: u32): Option<Transaction> {
    if tx.Eip1559? then
      Some(tx.(maxPriorityFeePerGas := Bump(tx.maxPriorityFeePerGas, bps), maxFeePerGas := Bump(tx.maxFeePerGas, bps)))
    else None
  }

  /**
   * A bumped transaction differs from the original in its two fees, keeps them ordered if they were,
   * and raises each to the least that outbids it, or to the cap if its product does not fit. Nothing
   * else is bumped.
   */
  lemma BumpedReplaces(tx: Transaction, bps: u32)
    ensures WithBumpedFees(tx, bps).Some? <==> tx.Eip1559?
    ensures tx.Eip1559? ==>
            var b := WithBumpedFees(tx, bps);
            && b.Some? && b.value.Eip1559?
            && (tx.maxPriorityFeePerGas <= tx.maxFeePerGas ==> b.value.maxPriorityFeePerGas <= b.value.maxFeePerGas)
            && (if BumpFits(tx.maxFeePerGas, bps) then IsLeastOutbid(b.value.maxFeePerGas, tx.maxFeePerGas, bps)
                else b.value.maxFeePerGas == BUMP_CAP && !Outbids(BUMP_CAP, tx.maxFeePerGas, bps))
            && (if BumpFits(tx.maxPriorityFeePerGas, bps)
                then IsLeastOutbid(b.value.maxPriorityFeePerGas, tx.maxPriorityFeePerGas, bps)
                else b.value.maxPriorityFeePerGas == BUMP_CAP && !Outbids(BUMP_CAP, tx.maxPriorityFeePerGas, bps))
            && b.value.(maxFeePerGas := tx.maxFeePerGas, maxPriorityFeePerGas := tx.maxPriorityFeePerGas) == tx
  {
    if tx.Eip1559? {
      if tx.maxPriorityFeePerGas <= tx.maxFeePerGas {
        BumpIsMonotone(tx.maxPriorityFeePerGas, tx.maxFeePerGas, bps, bps);
      }
      BumpIsCeilingIff(tx.maxPriorityFeePerGas, bps);
      BumpIsCeilingIff(tx.maxFeePerGas, bps);
      BumpOfProduct(tx.maxPriorityFeePerGas, bps, tx.maxPriorityFeePerGas * (BASIS + bps));
      BumpOfProduct(tx.maxFeePerGas, bps, tx.maxFeePerGas * (BASIS + bps));
    }
  }

  // ---------- Cancels ----------

  datatype CancelFees = CancelFees(tip: u256, maxFee: u256)

  function OrZero(fee: Option<u256>): u256 {
    if fee.Some? then fee.value else 0
  }

  /** Both fees bumped over the larger of the network price and the stranded transaction's own. */
  function ComputeCancelFees(networkTip: u256, networkGas: u256, strandedTip: Option<u256>,
                             strandedMaxFee: Option<u256>, bps: u32): CancelFees {
    var tip := Bump(Max(networkTip, OrZero(strandedTip)), bps);
    CancelFees(tip, Max(Bump(Max(networkGas, OrZero(strandedMaxFee)), bps), tip))
  }

  lemma OutbidsLess(bid: nat, prior: nat, less: nat, bps: nat)
    requires Outbids(bid, prior, bps) && less <= prior
    ensures Outbids(bid, less, bps)
  {
    ProductIsMonotone(less, prior, BASIS + bps, BASIS + bps);
  }

  /** The fee bases of a cancel. */
  predicate CancelFits(networkTip: u256, networkGas: u256, strandedTip: Option<u256>,
                       strandedMaxFee: Option<u256>, bps: u32) {
    BumpFits(Max(networkTip, OrZero(strandedTip)), bps) && BumpFits(Max(networkGas, OrZero(strandedMaxFee)), bps)
  }

  /**
   * Without saturation a cancel outbids the network and the stranded transaction in both fees; its
   * tip is the least that does, and its max fee the least that does and covers the tip.
   */
  lemma CancelOutbids(networkTip: u256, networkGas: u256, strandedTip: Option<u256>, strandedMaxFee: Option<u256>, bps: u32)
    requires CancelFits(networkTip, networkGas, strandedTip, strandedMaxFee, bps)
    ensures var fees := ComputeCancelFees(networkTip, networkGas, strandedTip, strandedMaxFee, bps);
            && fees.tip <= fees.maxFee
            && Outbids(fees.tip, networkTip, bps) && Outbids(fees.tip, OrZero(strandedTip), bps)
            && Outbids(fees.maxFee, networkGas, bps) && Outbids(fees.maxFee, OrZero(strandedMaxFee), bps)
    ensures var fees := ComputeCancelFees(networkTip, networkGas, strandedTip, strandedMaxFee, bps);
            && (forall r: nat | Outbids(r, networkTip, bps) && Outbids(r, OrZero(strandedTip), bps) :: fees.tip <= r)
            && (forall r: nat | Outbids(r, networkGas, bps) && Outbids(r, OrZero(strandedMaxFee), bps) && fees.tip <= r ::
                  fees.maxFee <= r)
  {
    var tipBasis, gasBasis := Max(networkTip, OrZero(strandedTip)), Max(networkGas, OrZero(strandedMaxFee));
    BumpIsCeilingIff(tipBasis, bps);
    BumpIsCeilingIff(gasBasis, bps);
    OutbidsLess(Bump(tipBasis, bps), tipBasis, networkTip, bps);
    OutbidsLess(Bump(tipBasis, bps), tipBasis, OrZero(strandedTip), bps);
    var fees := ComputeCancelFees(networkTip, networkGas, strandedTip, strandedMaxFee, bps);
    assert Outbids(fees.maxFee, gasBasis, bps);
    OutbidsLess(fees.maxFee, gasBasis, networkGas, bps);
    OutbidsLess(fees.maxFee, gasBasis, OrZero(strandedMaxFee), bps);
  }

  /** Saturated or not, dearer bases never give a cheaper cancel, and its max fee covers its tip. */
  lemma CancelIsMonotone(networkTip: u256, networkGas: u256, strandedTip: Option<u256>, strandedMaxFee: Option<u256>,
                         networkTip': u256, networkGas': u256, strandedTip': Option<u256>, strandedMaxFee': Option<u256>,
                         bps: u32)
    requires networkTip <= networkTip' && networkGas <= networkGas'
    requires OrZero(strandedTip) <= OrZero(strandedTip') && OrZero(strandedMaxFee) <= OrZero(strandedMaxFee')
    ensures var fees := ComputeCancelFees(networkTip, networkGas, strandedTip, strandedMaxFee, bps);
            var fees' := ComputeCancelFees(networkTip', networkGas', strandedTip', strandedMaxFee', bps);
            fees.tip <= fees'.tip && fees.maxFee <= fees'.maxFee && fees.tip <= fees.maxFee
  {
    BumpIsMonotone(Max(networkTip, OrZero(strandedTip)), Max(networkTip', OrZero(strandedTip')), bps, bps);
    BumpIsMonotone(Max(networkGas, OrZero(strandedMaxFee)), Max(networkGas', OrZero(strandedMaxFee')), bps, bps);
  }
}
