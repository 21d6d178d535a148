/**
 * The hand-written encoder: lengths are computed first, headers announce them, and the fields are
 * appended to a buffer that is reused between calls. Lengths are those of `usize` on a 64-bit machine.
 */
module TransactionEncoding {
  import opened Words
  import opened Rlp
  import opened Transactions

  // ---------- Lengths, as computed before anything is written ----------

  function UintLength(n: nat): nat {
    if n < 0x80 then 1 else 1 + |BigEndian(n)|
  }

  function BytesLength(bs: Bytes): nat {
    if |bs| != 1 || bs[0] >= 0x80 then HeaderSize(|bs|) + |bs| else |bs|
  }

  const ADDRESS_LENGTH := 21
  const KEY_LENGTH := 33

  function ToLength(to: Option<Address>): nat {
    if to.Some? then ADDRESS_LENGTH else 1
  }

  function ScalarLength(scalar: B256): nat {
    BytesLength(StripZeros(scalar))
  }

  function StorageLength(keys: seq<B256>): nat {
    if keys == [] then 0 else KEY_LENGTH + StorageLength(keys[1..])
  }

  function ItemPayloadLength(item: AccessListItem): nat {
    var storage := StorageLength(item.storageKeys);
    ADDRESS_LENGTH + HeaderSize(storage) + storage
  }

  function ItemLength(item: AccessListItem): nat {
    HeaderSize(ItemPayloadLength(item)) + ItemPayloadLength(item)
  }

  function ItemsLength(list: seq<AccessListItem>): nat {
    if list == [] then 0 else ItemLength(list[0]) + ItemsLength(list[1..])
  }

  function AccessListLength(list: seq<AccessListItem>): nat {
    HeaderSize(ItemsLength(list)) + ItemsLength(list)
  }

  /** The lengths of the fields shared by the signing and the signed form. */
  function CommonLength(tx: Transaction): nat {
    match tx
    case Legacy(nonce, gasPrice, gasLimit, to, value, data, _) =>
      UintLength(nonce) + UintLength(gasPrice) + UintLength(gasLimit) + ToLength(to) + UintLength(value) + BytesLength(data)
    case Eip2930(chainId, nonce, gasPrice, gasLimit, to, value, data, list) =>
      UintLength(chainId) + UintLength(nonce) + UintLength(gasPrice) + UintLength(gasLimit) + ToLength(to)
      + UintLength(value) + BytesLength(data) + AccessListLength(list)
    case Eip1559(chainId, nonce, tip, maxFee, gasLimit, to, value, data, list) =>
      UintLength(chainId) + UintLength(nonce) + UintLength(tip) + UintLength(maxFee) + UintLength(gasLimit)
      + ToLength(to) + UintLength(value) + BytesLength(data) + AccessListLength(list)
  }

  function SigningLength(tx: Transaction): nat {
    if tx.Legacy? then CommonLength(tx) + UintLength(tx.chainId) + 1 + 1 else CommonLength(tx)
  }

  function SignedLength(tx: Transaction, sig: Signature): nat {
    CommonLength(tx) + UintLength(sig.v) + ScalarLength(sig.r) + ScalarLength(sig.s)
  }

  // ---------- Lengths are sizes ----------

  lemma UintLengthIsSize(n: u256)
    ensures UintLength(n) == Size(UintItem(n))
  {
    WidthIff(n, 32);
    WidthIff(n, 1);
    Pow256Words();
    BigEndianRoundTrip(n);
    assert Pow256(1) == 256;
    var bs := BigEndian(n);
    if |bs| == 1 {
      assert bs[..0] == [] && Value(bs) == bs[0];
    }
  }

  lemma {:induction false} StorageLengthIsSize(keys: seq<B256>)
    ensures StorageLength(keys) == SizeAll(KeyItems(keys))
  {
    if keys != [] {
      StorageLengthIsSize(keys[1..]);
      assert KeyItems(keys)[1..] == KeyItems(keys[1..]);
    }
  }

  lemma ItemLengthIsSize(item: AccessListItem)
    ensures ItemPayloadLength(item) == PayloadSize(AccessItem(item))
    ensures ItemLength(item) == Size(AccessItem(item))
  {
    StorageLengthIsSize(item.storageKeys);
    var address, keys := Str(item.address), List(KeyItems(item.storageKeys));
    SizeAllOfTwo(address, keys);
    assert AccessItem(item) == List([address, keys]);
  }

  lemma {:induction false} ItemsLengthIsSize(list: seq<AccessListItem>)
    ensures ItemsLength(list) == SizeAll(AccessItems(list))
    ensures AccessListLength(list) == Size(List(AccessItems(list)))
  {
    if list != [] {
      ItemLengthIsSize(list[0]);
      ItemsLengthIsSize(list[1..]);
      assert AccessItems(list)[1..] == AccessItems(list[1..]);
    }
  }

  lemma SizeAllOfTwo(a: Item, b: Item)
    ensures SizeAll([a, b]) == Size(a) + Size(b)
  {
    assert [a, b][1..] == [b];
    assert SizeAll([b]) == Size(b) by {
      assert [b][1..] == [];
    }
  }

  lemma SizeAllOfThree(a: Item, b: Item, c: Item)
    ensures SizeAll([a, b, c]) == Size(a) + Size(b) + Size(c)
  {
    assert [a, b, c][1..] == [b, c];
    SizeAllOfTwo(b, c);
  }

  lemma {:induction false} SizeAllConcat(a: seq<Item>, b: seq<Item>)
    ensures SizeAll(a + b) == SizeAll(a) + SizeAll(b)
  {
    if a == [] {
      assert a + b == b;
    } else {
      SizeAllConcat(a[1..], b);
      assert (a + b)[1..] == a[1..] + b;
    }
  }

  lemma LegacyLengthIsSize(tx: Transaction)
    requires tx.Legacy?
    ensures CommonLength(tx) == SizeAll(CommonFields(tx))
  {
    UintLengthIsSize(tx.nonce);
    UintLengthIsSize(tx.gasPrice);
    UintLengthIsSize(tx.gasLimit);
    UintLengthIsSize(tx.value);
    SizeAllOfSix(CommonFields(tx));
  }

  lemma SizeAllOfSix(f: seq<Item>)
    requires |f| == 6
    ensures SizeAll(f) == Size(f[0]) + Size(f[1]) + Size(f[2]) + Size(f[3]) + Size(f[4]) + Size(f[5])
  {
    SizeAllOfThree(f[0], f[1], f[2]);
    SizeAllOfThree(f[3], f[4], f[5]);
    SizeAllConcat([f[0], f[1], f[2]], [f[3], f[4], f[5]]);
    assert f == [f[0], f[1], f[2]] + [f[3], f[4], f[5]];
  }

  lemma SizeAllOfEight(f: seq<Item>)
    requires |f| == 8
    ensures SizeAll(f) == Size(f[0]) + Size(f[1]) + Size(f[2]) + Size(f[3])
                        + Size(f[4]) + Size(f[5]) + Size(f[6]) + Size(f[7])
  {
    SizeAllOfSix(f[..6]);
    SizeAllOfTwo(f[6], f[7]);
    SizeAllConcat(f[..6], [f[6], f[7]]);
    assert f == f[..6] + [f[6], f[7]];
  }

  lemma SizeAllOfNine(f: seq<Item>)
    requires |f| == 9
    ensures SizeAll(f) == Size(f[0]) + Size(f[1]) + Size(f[2]) + Size(f[3]) + Size(f[4])
                        + Size(f[5]) + Size(f[6]) + Size(f[7]) + Size(f[8])
  {
    SizeAllOfEight(f[..8]);
    SizeAllConcat(f[..8], [f[8]]);
    assert f == f[..8] + [f[8]];
  }

  lemma Eip2930LengthIsSize(tx: Transaction)
    requires tx.Eip2930?
    ensures CommonLength(tx) == SizeAll(CommonFields(tx))
  {
    UintLengthIsSize(tx.chainId);
    UintLengthIsSize(tx.nonce);
    UintLengthIsSize(tx.gasPrice);
    UintLengthIsSize(tx.gasLimit);
    UintLengthIsSize(tx.value);
    ItemsLengthIsSize(tx.accessList);
    SizeAllOfEight(CommonFields(tx));
  }

  lemma Eip1559LengthIsSize(tx: Transaction)
    requires tx.Eip1559?
    ensures CommonLength(tx) == SizeAll(CommonFields(tx))
  {
    UintLengthIsSize(tx.chainId);
    UintLengthIsSize(tx.nonce);
    UintLengthIsSize(tx.maxPriorityFeePerGas);
    UintLengthIsSize(tx.maxFeePerGas);
    UintLengthIsSize(tx.gasLimit);
    UintLengthIsSize(tx.value);
    ItemsLengthIsSize(tx.accessList);
    SizeAllOfNine(CommonFields(tx));
  }

  lemma CommonLengthIsSize(tx: Transaction)
    ensures CommonLength(tx) == SizeAll(CommonFields(tx))
  {
    if tx.Legacy? {
      LegacyLengthIsSize(tx);
    } else if tx.Eip2930? {
      Eip2930LengthIsSize(tx);
    } else {
      Eip1559LengthIsSize(tx);
    }
  }

  /** The announced length of a signing list is the number of payload bytes. */
  lemma SigningLengthIsSize(tx: Transaction)
    ensures SigningLength(tx) == PayloadSize(SigningItem(tx))
  {
    CommonLengthIsSize(tx);
    if tx.Legacy? {
      var tail := [UintItem(tx.chainId), UintItem(0), UintItem(0)];
      UintLengthIsSize(tx.chainId);
      UintLengthIsSize(0);
      SizeAllOfThree(tail[0], tail[1], tail[2]);
      SizeAllConcat(CommonFields(tx), tail);
    } else {
      assert CommonFields(tx) + [] == CommonFields(tx);
    }
  }

  /** The announced length of a signed list is the number of payload bytes. */
  lemma SignedLengthIsSize(tx: Transaction, sig: Signature)
    ensures SignedLength(tx, sig) == PayloadSize(SignedItem(tx, sig))
  {
    CommonLengthIsSize(tx);
    UintLengthIsSize(sig.v);
    SizeAllOfThree(UintItem(sig.v), ScalarItem(sig.r), ScalarItem(sig.s));
    SizeAllConcat(CommonFields(tx), SignatureFields(sig));
  }

  lemma {:induction false} ElementFits(items: seq<Item>, k: nat)
    requires k < |items|
    ensures Size(items[k]) <= SizeAll(items)
  {
    if k > 0 {
      ElementFits(items[1..], k - 1);
    }
  }

  lemma {:induction false} PrefixFits(items: seq<Item>, k: nat)
    requires k <= |items|
    ensures SizeAll(items[..k]) <= SizeAll(items)
  {
    SizeAllConcat(items[..k], items[k..]);
    assert items == items[..k] + items[k..];
  }

  // ---------- The encoder ----------

  /** The significant bytes of a signature scalar. */
  method CanonicalScalarBytes(scalar: B256) returns (bs: Bytes)
    ensures bs == StripZeros(scalar)
  {
    var first := 0;
    while first < |scalar| && scalar[first] == 0
      invariant first <= |scalar| && StripZeros(scalar[first..]) == StripZeros(scalar)
    {
      assert scalar[first..][1..] == scalar[first + 1..];
      first := first + 1;
    }
    bs := scalar[first..];
  }

  lemma ItemFits(plan: seq<Item>, k: nat)
    requires SizeAll(plan) < U64_LIMIT && k < |plan|
    ensures Fits(plan[k]) && SizeAll(plan[..k]) < U64_LIMIT && SizeAll(plan[..k + 1]) < U64_LIMIT
  {
    ElementFits(plan, k);
    PrefixFits(plan, k);
    PrefixFits(plan, k + 1);
    assert Size(plan[k]) >= PayloadSize(plan[k]);
  }

  /** Writing item `done` of a plan after its predecessors leaves the first `done + 1` written. */
  lemma Extends(plan: seq<Item>, done: nat, item: Item, start: Bytes, before: Bytes)
    requires SizeAll(plan) < U64_LIMIT && done < |plan| && plan[done] == item
    requires SizeAll(plan[..done]) < U64_LIMIT && before == start + EncodeAll(plan[..done])
    ensures Fits(item) && SizeAll(plan[..done + 1]) < U64_LIMIT
    ensures before + Encode(item) == start + EncodeAll(plan[..done + 1])
  {
    ItemFits(plan, done);
    var written := plan[..done];
    assert plan[..done + 1] == written + [item];
    EncodeAllSnoc(written, item);
    JoinAssociates(start, EncodeAll(written), Encode(item));
  }

  /**
   * An append-only byte buffer. While a list is being written, `plan` is its payload, `start` the
   * text up to and including its header, and `done` the number of payload items already written.
   */
  class Buffer {
    var bytes: Bytes
    ghost var start: Bytes
    ghost var plan: seq<Item>
    ghost var done: nat

    ghost predicate Valid()
      reads this
    {
      && SizeAll(plan) < U64_LIMIT && done <= |plan|
      && SizeAll(plan[..done]) < U64_LIMIT
      && bytes == start + EncodeAll(plan[..done])
    }

    /** The next thing to be written is `item`. */
    ghost predicate Expects(item: Item)
      reads this
    {
      Valid() && done < |plan| && plan[done] == item
    }

    /** Exactly the expected item has been written. */
    twostate predicate Wrote()
      reads this
    {
      Valid() && start == old(start) && plan == old(plan) && done == old(done) + 1
    }

    constructor ()
      ensures bytes == []
    {
      bytes, start, plan, done := [], [], [], 0;
    }

    method Clear()
      modifies this
      ensures bytes == []
    {
      bytes := [];
    }

    method PushByte(b: byte)
      modifies this`bytes
      ensures bytes == old(bytes) + [b]
    {
      bytes := bytes + [b];
    }

    /** Write a list header that announces `length` bytes of payload. */
    method OpenList(length: nat, ghost payload: seq<Item>)
      requires length == SizeAll(payload) < U64_LIMIT
      modifies this
      ensures bytes == start == old(bytes) + Header(LIST_BASE, length)
      ensures Valid() && plan == payload && done == 0
    {
      bytes := bytes + Header(LIST_BASE, length);
      start, plan, done := bytes, payload, 0;
      assert plan[..0] == [];
    }

    /** The announced payload is complete: the list itself has been written after `before`. */
    lemma ListIsComplete(before: Bytes)
      requires Valid() && done == |plan| && start == before + Header(LIST_BASE, SizeAll(plan))
      ensures Fits(List(plan)) && bytes == before + Encode(List(plan))
    {
      assert plan[..done] == plan;
    }

    method PutUint(n: u256)
      requires Expects(UintItem(n))
      modifies this
      ensures Wrote()
    {
      Extends(plan, done, UintItem(n), start, bytes);
      bytes := bytes + Encode(UintItem(n));
      done := done + 1;
    }

    method PutBytes(bs: Bytes)
      requires Expects(Str(bs))
      modifies this
      ensures Wrote()
    {
      Extends(plan, done, Str(bs), start, bytes);
      bytes := bytes + Encode(Str(bs));
      done := done + 1;
    }

    method PutTo(to: Option<Address>)
      requires Expects(ToItem(to))
      modifies this
      ensures Wrote()
    {
      if to.Some? {
        PutBytes(to.value);
      } else {
        Extends(plan, done, Str([]), start, bytes);
        assert Encode(Str([])) == [0x80];
        PushByte(0x80);
        done := done + 1;
      }
    }

    method PutScalar(scalar: B256)
      requires Expects(ScalarItem(scalar))
      modifies this
      ensures Wrote()
    {
      var canonical := CanonicalScalarBytes(scalar);
      PutBytes(canonical);
    }

    method PutKeys(keys: seq<B256>)
      requires Valid() && plan == KeyItems(keys) && done == 0
      modifies this
      ensures Valid() && start == old(start) && plan == old(plan) && done == |plan|
    {
      KeyItemsAt(keys);
      var i := 0;
      while i < |keys|
        invariant Valid() && start == old(start) && plan == old(plan) && done == i <= |keys|
      {
        PutBytes(keys[i]);
        i := i + 1;
      }
    }

    method PutStorageKeys(keys: seq<B256>)
      requires Expects(List(KeyItems(keys)))
      modifies this
      ensures Wrote()
    {
      ghost var before, outer, index, text := start, plan, done, bytes;
      ElementFits(plan, done);
      StorageLengthIsSize(keys);
      OpenList(StorageLength(keys), KeyItems(keys));
      PutKeys(keys);
      ListIsComplete(text);
      start, plan, done := before, outer, index;
      Extends(plan, done, List(KeyItems(keys)), start, text);
      done := done + 1;
    }

    method PutAccessItem(item: AccessListItem)
      requires Expects(AccessItem(item))
      modifies this
      ensures Wrote()
    {
      ghost var before, outer, index, text := start, plan, done, bytes;
      ElementFits(plan, done);
      ItemLengthIsSize(item);
      OpenList(ItemPayloadLength(item), AccessItem(item).items);
      PutBytes(item.address);
      PutStorageKeys(item.storageKeys);
      ListIsComplete(text);
      start, plan, done := before, outer, index;
      Extends(plan, done, AccessItem(item), start, text);
      done := done + 1;
    }

    method PutItems(list: seq<AccessListItem>)
      requires Valid() && plan == AccessItems(list) && done == 0
      modifies this
      ensures Valid() && start == old(start) && plan == old(plan) && done == |plan|
    {
      AccessItemsAt(list);
      var i := 0;
      while i < |list|
        invariant Valid() && start == old(start) && plan == old(plan) && done == i <= |list|
      {
        PutAccessItem(list[i]);
        i := i + 1;
      }
    }

    method PutAccessList(list: seq<AccessListItem>)
      requires Expects(List(AccessItems(list)))
      modifies this
      ensures Wrote()
    {
      ghost var before, outer, index, text := start, plan, done, bytes;
      ElementFits(plan, done);
      ItemsLengthIsSize(list);
      OpenList(ItemsLength(list), AccessItems(list));
      PutItems(list);
      ListIsComplete(text);
      start, plan, done := before, outer, index;
      Extends(plan, done, List(AccessItems(list)), start, text);
      done := done + 1;
    }

    // ---------- Transactions ----------

    /** The plan starts with the common fields of `tx`, and nothing is written yet. */
    ghost predicate Begins(tx: Transaction)
      reads this
    {
      Valid() && done == 0 && CommonFields(tx) <= plan
    }

    method PutLegacyFields(tx: Transaction)
      requires tx.Legacy? && Begins(tx)
      modifies this
      ensures Valid() && start == old(start) && plan == old(plan) && done == |CommonFields(tx)|
    {
      assert plan[0] == UintItem(tx.nonce) && plan[1] == UintItem(tx.gasPrice) && plan[2] == UintItem(tx.gasLimit);
      assert plan[3] == ToItem(tx.to) && plan[4] == UintItem(tx.value) && plan[5] == Str(tx.data);
      PutUint(tx.nonce);
      PutUint(tx.gasPrice);
      PutUint(tx.gasLimit);
      PutTo(tx.to);
      PutUint(tx.value);
      PutBytes(tx.data);
    }

    method PutEip2930Fields(tx: Transaction)
      requires tx.Eip2930? && Begins(tx)
      modifies this
      ensures Valid() && start == old(start) && plan == old(plan) && done == |CommonFields(tx)|
    {
      assert plan[4] == ToItem(tx.to) && plan[5] == UintItem(tx.value);
      assert plan[6] == Str(tx.data) && plan[7] == List(AccessItems(tx.accessList));
      PutEip2930Prices(tx);
      PutTo(tx.to);
      PutUint(tx.value);
      PutBytes(tx.data);
      PutAccessList(tx.accessList);
    }

    method PutEip2930Prices(tx: Transaction)
      requires tx.Eip2930? && Begins(tx)
      modifies this
      ensures Valid() && start == old(start) && plan == old(plan) && done == 4
    {
      assert plan[0] == UintItem(tx.chainId) && plan[1] == UintItem(tx.nonce);
      assert plan[2] == UintItem(tx.gasPrice) && plan[3] == UintItem(tx.gasLimit);
      PutUint(tx.chainId);
      PutUint(tx.nonce);
      PutUint(tx.gasPrice);
      PutUint(tx.gasLimit);
    }

    method PutEip1559Fields(tx: Transaction)
      requires tx.Eip1559? && Begins(tx)
      modifies this
      ensures Valid() && start == old(start) && plan == old(plan) && done == |CommonFields(tx)|
    {
      assert plan[5] == ToItem(tx.to) && plan[6] == UintItem(tx.value);
      assert plan[7] == Str(tx.data) && plan[8] == List(AccessItems(tx.accessList));
      PutEip1559Prices(tx);
      PutTo(tx.to);
      PutUint(tx.value);
      PutBytes(tx.data);
      PutAccessList(tx.accessList);
    }

    method PutEip1559Prices(tx: Transaction)
      requires tx.Eip1559? && Begins(tx)
      modifies this
      ensures Valid() && start == old(start) && plan == old(plan) && done == 5
    {
      assert plan[0] == UintItem(tx.chainId) && plan[1] == UintItem(tx.nonce);
      assert plan[2] == UintItem(tx.maxPriorityFeePerGas) && plan[3] == UintItem(tx.maxFeePerGas);
      assert plan[4] == UintItem(tx.gasLimit);
      PutUint(tx.chainId);
      PutUint(tx.nonce);
      PutUint(tx.maxPriorityFeePerGas);
      PutUint(tx.maxFeePerGas);
      PutUint(tx.gasLimit);
    }

    method PutFields(tx: Transaction)
      requires Begins(tx)
      modifies this
      ensures Valid() && start == old(start) && plan == old(plan) && done == |CommonFields(tx)|
    {
      if tx.Legacy? {
        PutLegacyFields(tx);
      } else if tx.Eip2930? {
        PutEip2930Fields(tx);
      } else {
        PutEip1559Fields(tx);
      }
    }

    method PutSignature(sig: Signature)
      requires Valid() && plan[done..] == SignatureFields(sig)
      modifies this
      ensures Valid() && start == old(start) && plan == old(plan) && done == |plan|
    {
      assert forall k | 0 <= k < 3 :: plan[done + k] == SignatureFields(sig)[k];
      PutUint(sig.v);
      PutScalar(sig.r);
      PutScalar(sig.s);
    }

    method PutChainId(chainId: u64)
      requires Valid() && plan[done..] == [UintItem(chainId), UintItem(0), UintItem(0)]
      modifies this
      ensures Valid() && start == old(start) && plan == old(plan) && done == |plan|
    {
      assert forall k | 0 <= k < 3 :: plan[done + k] == [UintItem(chainId), UintItem(0), UintItem(0)][k];
      PutUint(chainId);
      PutUint(0);
      PutUint(0);
    }

    method PutTypePrefix(tx: Transaction)
      modifies this
      ensures bytes == old(bytes) + TypePrefix(tx)
    {
      if tx.Eip2930? {
        PushByte(0x01);
      } else if tx.Eip1559? {
        PushByte(0x02);
      } else {
        assert bytes + TypePrefix(tx) == bytes;
      }
    }

    method PutSigningFields(tx: Transaction)
      requires Valid() && plan == SigningItem(tx).items && done == 0
      modifies this
      ensures Valid() && start == old(start) && plan == old(plan) && done == |plan|
    {
      PutFields(tx);
      if tx.Legacy? {
        PutChainId(tx.chainId);
      }
    }

    method PutSignedFields(tx: Transaction, sig: Signature)
      requires Valid() && plan == SignedItem(tx, sig).items && done == 0
      modifies this
      ensures Valid() && start == old(start) && plan == old(plan) && done == |plan|
    {
      SignedPlan(tx, sig);
      PutFields(tx);
      PutSignature(sig);
    }

    /** The whole signed list, header and payload. */
    method PutSignedList(tx: Transaction, sig: Signature)
      requires Fits(SignedItem(tx, sig))
      modifies this
      ensures bytes == old(bytes) + Encode(SignedItem(tx, sig))
    {
      ghost var fields := SignedFields(tx, sig);
      OpenList(SignedLength(tx, sig), fields);
      PutSignedFields(tx, sig);
      ListIsComplete(old(bytes));
    }

    /** The whole list to sign, header and payload. */
    method PutSigningList(tx: Transaction)
      requires Fits(SigningItem(tx))
      modifies this
      ensures bytes == old(bytes) + Encode(SigningItem(tx))
    {
      ghost var fields := SigningFields(tx);
      OpenList(SigningLength(tx), fields);
      PutSigningFields(tx);
      ListIsComplete(old(bytes));
    }

    /** The bytes to sign, whatever the reused buffer held before. */
    method EncodeForSigning(tx: Transaction) returns (encoded: Bytes)
      requires Fits(SigningItem(tx))
      modifies this
      ensures encoded == SigningBytes(tx)
    {
      Clear();
      PutTypePrefix(tx);
      PutSigningList(tx);
      encoded := bytes;
    }
  }

  lemma {:induction false} KeyItemsAt(keys: seq<B256>)
    ensures |KeyItems(keys)| == |keys|
    ensures forall i | 0 <= i < |keys| :: KeyItems(keys)[i] == Str(keys[i])
  {
    if keys != [] {
      KeyItemsAt(keys[1..]);
    }
  }

  lemma {:induction false} AccessItemsAt(list: seq<AccessListItem>)
    ensures |AccessItems(list)| == |list|
    ensures forall i | 0 <= i < |list| :: AccessItems(list)[i] == AccessItem(list[i])
  {
    if list != [] {
      AccessItemsAt(list[1..]);
    }
  }

  lemma SigningFields(tx: Transaction) returns (fields: seq<Item>)
    ensures fields == SigningItem(tx).items && List(fields) == SigningItem(tx)
    ensures SigningLength(tx) == SizeAll(fields) == PayloadSize(SigningItem(tx))
  {
    fields := SigningItem(tx).items;
    SigningLengthIsSize(tx);
  }

  lemma SignedFields(tx: Transaction, sig: Signature) returns (fields: seq<Item>)
    ensures fields == SignedItem(tx, sig).items && List(fields) == SignedItem(tx, sig)
    ensures SignedLength(tx, sig) == SizeAll(fields) == PayloadSize(SignedItem(tx, sig))
  {
    fields := SignedItem(tx, sig).items;
    SignedLengthIsSize(tx, sig);
  }

  /** The fields of a signed list are the common ones, then the signature. */
  lemma SignedPlan(tx: Transaction, sig: Signature)
    ensures var plan := SignedItem(tx, sig).items; var n := |CommonFields(tx)|;
            CommonFields(tx) <= plan && n <= |plan| && plan[n..] == SignatureFields(sig)
  {
  }

  /** The bytes to broadcast. */
  method EncodeSigned(tx: Transaction, sig: Signature) returns (encoded: Bytes)
    requires Fits(SignedItem(tx, sig))
    ensures encoded == SignedBytes(tx, sig)
  {
    var buf := new Buffer();
    buf.PutTypePrefix(tx);
    buf.PutSignedList(tx, sig);
    encoded := buf.bytes;
  }

  /** The number of broadcast bytes is known before any of them is written. */
  lemma SignedLengthIsExact(tx: Transaction, sig: Signature)
    requires Fits(SignedItem(tx, sig))
    ensures |SignedBytes(tx, sig)| == |TypePrefix(tx)| + HeaderSize(SignedLength(tx, sig)) + SignedLength(tx, sig)
  {
    SignedLengthIsSize(tx, sig);
  }
}
