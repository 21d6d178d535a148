/**
 * Where each field of a transaction stands. Any RLP decoder finds, after the type byte, one list, and
 * these lemmas say item by item what is in it, for the three types, signed and to be signed.
 */
module TransactionLayout {
  import opened Words
  import opened Rlp
  import opened Transactions

  /** The whole text is the encoding of one list. */
  lemma ListIsDecoded(items: seq<Item>)
    requires Fits(List(items))
    ensures Decode(Encode(List(items))) == Some(Parsed(List(items), []))
    ensures Encode(List(items)) != [] && Encode(List(items))[0] >= 192
  {
    DecodeInverts(List(items), []);
    assert Encode(List(items)) + [] == Encode(List(items));
    DecodeListInverts(items);
  }

  /** A list of pairs: an address of 20 bytes, and a list of keys of 32 bytes each. */
  ghost predicate HoldsAccessList(item: Item, list: seq<AccessListItem>) {
    && item.List? && |item.items| == |list|
    && forall i | 0 <= i < |list| :: HoldsAccess(item.items[i], list[i])
  }

  ghost predicate HoldsAccess(item: Item, access: AccessListItem) {
    && item.List? && |item.items| == 2
    && item.items[0] == Str(access.address)
    && item.items[1].List? && |item.items[1].items| == |access.storageKeys|
    && forall j | 0 <= j < |access.storageKeys| :: item.items[1].items[j] == Str(access.storageKeys[j])
  }

  lemma {:induction false} KeysAreHeld(keys: seq<B256>)
    ensures |KeyItems(keys)| == |keys| && forall j | 0 <= j < |keys| :: KeyItems(keys)[j] == Str(keys[j])
  {
    if keys != [] {
      KeysAreHeld(keys[1..]);
    }
  }

  lemma {:induction false} AccessIsHeld(list: seq<AccessListItem>)
    ensures HoldsAccessList(List(AccessItems(list)), list)
  {
    if list != [] {
      AccessIsHeld(list[1..]);
      KeysAreHeld(list[0].storageKeys);
      assert HoldsAccess(AccessItem(list[0]), list[0]);
      forall i | 0 <= i < |list| ensures HoldsAccess(AccessItems(list)[i], list[i]) {
        assert i > 0 ==> AccessItems(list)[i] == AccessItems(list[1..])[i - 1];
      }
    }
  }

  /** The three items every signed form ends with: v, and r and s as the shortest forms of their numbers. */
  lemma SignatureLayout(sig: Signature)
    ensures SignatureFields(sig) == [Str(BigEndian(sig.v)), Str(BigEndian(Value(sig.r))), Str(BigEndian(Value(sig.s)))]
  {
    ScalarIsMinimal(sig.r);
    ScalarIsMinimal(sig.s);
  }

  lemma SignedDecodes(tx: Transaction, sig: Signature)
    requires Fits(SignedItem(tx, sig))
    ensures var bs, f := SignedBytes(tx, sig), CommonFields(tx) + SignatureFields(sig);
            && bs != [] && (if tx.Legacy? then bs[0] >= 192 else bs[0] == if tx.Eip2930? then 1 else 2)
            && Decode(if tx.Legacy? then bs else bs[1..]) == Some(Parsed(List(f), []))
  {
    var f := CommonFields(tx) + SignatureFields(sig);
    ListIsDecoded(f);
    PrefixIsDropped(TypePrefix(tx), Encode(List(f)));
  }

  lemma SigningDecodes(tx: Transaction)
    requires Fits(SigningItem(tx))
    ensures var bs, f := SigningBytes(tx), SigningItem(tx).items;
            && bs != [] && (if tx.Legacy? then bs[0] >= 192 else bs[0] == if tx.Eip2930? then 1 else 2)
            && Decode(if tx.Legacy? then bs else bs[1..]) == Some(Parsed(List(f), []))
  {
    var f := SigningItem(tx).items;
    ListIsDecoded(f);
    PrefixIsDropped(TypePrefix(tx), Encode(List(f)));
  }

  lemma PrefixIsDropped(prefix: Bytes, body: Bytes)
    ensures (prefix + body)[|prefix|..] == body
    ensures prefix == [] ==> prefix + body == body
  {
  }

  lemma Eip1559Fields(tx: Transaction)
    requires tx.Eip1559?
    ensures var f := CommonFields(tx);
            && |f| == 9 && f[0] == Str(BigEndian(tx.chainId)) && f[1] == Str(BigEndian(tx.nonce))
            && f[2] == Str(BigEndian(tx.maxPriorityFeePerGas)) && f[3] == Str(BigEndian(tx.maxFeePerGas))
            && f[4] == Str(BigEndian(tx.gasLimit)) && f[5] == Str(if tx.to.Some? then tx.to.value else [])
            && f[6] == Str(BigEndian(tx.value)) && f[7] == Str(tx.data) && HoldsAccessList(f[8], tx.accessList)
  {
    AccessIsHeld(tx.accessList);
  }

  lemma Eip2930Fields(tx: Transaction)
    requires tx.Eip2930?
    ensures var f := CommonFields(tx);
            && |f| == 8 && f[0] == Str(BigEndian(tx.chainId)) && f[1] == Str(BigEndian(tx.nonce))
            && f[2] == Str(BigEndian(tx.gasPrice)) && f[3] == Str(BigEndian(tx.gasLimit))
            && f[4] == Str(if tx.to.Some? then tx.to.value else []) && f[5] == Str(BigEndian(tx.value))
            && f[6] == Str(tx.data) && HoldsAccessList(f[7], tx.accessList)
  {
    AccessIsHeld(tx.accessList);
  }

  lemma LegacyFields(tx: Transaction)
    requires tx.Legacy?
    ensures var f := CommonFields(tx);
            && |f| == 6 && f[0] == Str(BigEndian(tx.nonce)) && f[1] == Str(BigEndian(tx.gasPrice))
            && f[2] == Str(BigEndian(tx.gasLimit)) && f[3] == Str(if tx.to.Some? then tx.to.value else [])
            && f[4] == Str(BigEndian(tx.value)) && f[5] == Str(tx.data)
  {
  }

  // ---------- Dynamic-fee transactions ----------

  lemma Eip1559Signed(tx: Transaction, sig: Signature) returns (f: seq<Item>)
    requires tx.Eip1559? && Fits(SignedItem(tx, sig))
    ensures var bs := SignedBytes(tx, sig);
            bs != [] && bs[0] == 2 && Decode(bs[1..]) == Some(Parsed(List(f), [])) && |f| == 12
    ensures f[0] == Str(BigEndian(tx.chainId)) && f[1] == Str(BigEndian(tx.nonce))
    ensures f[2] == Str(BigEndian(tx.maxPriorityFeePerGas)) && f[3] == Str(BigEndian(tx.maxFeePerGas))
    ensures f[4] == Str(BigEndian(tx.gasLimit)) && f[5] == Str(if tx.to.Some? then tx.to.value else [])
    ensures f[6] == Str(BigEndian(tx.value)) && f[7] == Str(tx.data) && HoldsAccessList(f[8], tx.accessList)
    ensures f[9] == Str(BigEndian(sig.v))
    ensures f[10] == Str(BigEndian(Value(sig.r))) && f[11] == Str(BigEndian(Value(sig.s)))
  {
    SignedDecodes(tx, sig);
    Eip1559Fields(tx);
    SignatureLayout(sig);
    f := CommonFields(tx) + SignatureFields(sig);
  }

  lemma Eip1559ToSign(tx: Transaction) returns (f: seq<Item>)
    requires tx.Eip1559? && Fits(SigningItem(tx))
    ensures var bs := SigningBytes(tx);
            bs != [] && bs[0] == 2 && Decode(bs[1..]) == Some(Parsed(List(f), [])) && |f| == 9
    ensures f[0] == Str(BigEndian(tx.chainId)) && f[1] == Str(BigEndian(tx.nonce))
    ensures f[2] == Str(BigEndian(tx.maxPriorityFeePerGas)) && f[3] == Str(BigEndian(tx.maxFeePerGas))
    ensures f[4] == Str(BigEndian(tx.gasLimit)) && f[5] == Str(if tx.to.Some? then tx.to.value else [])
    ensures f[6] == Str(BigEndian(tx.value)) && f[7] == Str(tx.data) && HoldsAccessList(f[8], tx.accessList)
  {
    SigningDecodes(tx);
    Eip1559Fields(tx);
    f := SigningItem(tx).items;
  }

  // ---------- Access-list transactions ----------

  lemma Eip2930Signed(tx: Transaction, sig: Signature) returns (f: seq<Item>)
    requires tx.Eip2930? && Fits(SignedItem(tx, sig))
    ensures var bs := SignedBytes(tx, sig);
            bs != [] && bs[0] == 1 && Decode(bs[1..]) == Some(Parsed(List(f), [])) && |f| == 11
    ensures f[0] == Str(BigEndian(tx.chainId)) && f[1] == Str(BigEndian(tx.nonce))
    ensures f[2] == Str(BigEndian(tx.gasPrice)) && f[3] == Str(BigEndian(tx.gasLimit))
    ensures f[4] == Str(if tx.to.Some? then tx.to.value else []) && f[5] == Str(BigEndian(tx.value))
    ensures f[6] == Str(tx.data) && HoldsAccessList(f[7], tx.accessList)
    ensures f[8] == Str(BigEndian(sig.v))
    ensures f[9] == Str(BigEndian(Value(sig.r))) && f[10] == Str(BigEndian(Value(sig.s)))
  {
    SignedDecodes(tx, sig);
    Eip2930Fields(tx);
    SignatureLayout(sig);
    f := CommonFields(tx) + SignatureFields(sig);
  }

  lemma Eip2930ToSign(tx: Transaction) returns (f: seq<Item>)
    requires tx.Eip2930? && Fits(SigningItem(tx))
    ensures var bs := SigningBytes(tx);
            bs != [] && bs[0] == 1 && Decode(bs[1..]) == Some(Parsed(List(f), [])) && |f| == 8
    ensures f[0] == Str(BigEndian(tx.chainId)) && f[1] == Str(BigEndian(tx.nonce))
    ensures f[2] == Str(BigEndian(tx.gasPrice)) && f[3] == Str(BigEndian(tx.gasLimit))
    ensures f[4] == Str(if tx.to.Some? then tx.to.value else []) && f[5] == Str(BigEndian(tx.value))
    ensures f[6] == Str(tx.data) && HoldsAccessList(f[7], tx.accessList)
  {
    SigningDecodes(tx);
    Eip2930Fields(tx);
    f := SigningItem(tx).items;
  }

  // ---------- Legacy transactions ----------

  lemma LegacySigned(tx: Transaction, sig: Signature) returns (f: seq<Item>)
    requires tx.Legacy? && Fits(SignedItem(tx, sig))
    ensures Decode(SignedBytes(tx, sig)) == Some(Parsed(List(f), [])) && |f| == 9
    ensures f[0] == Str(BigEndian(tx.nonce)) && f[1] == Str(BigEndian(tx.gasPrice))
    ensures f[2] == Str(BigEndian(tx.gasLimit)) && f[3] == Str(if tx.to.Some? then tx.to.value else [])
    ensures f[4] == Str(BigEndian(tx.value)) && f[5] == Str(tx.data)
    ensures f[6] == Str(BigEndian(sig.v))
    ensures f[7] == Str(BigEndian(Value(sig.r))) && f[8] == Str(BigEndian(Value(sig.s)))
  {
    SignedDecodes(tx, sig);
    LegacyFields(tx);
    SignatureLayout(sig);
    f := CommonFields(tx) + SignatureFields(sig);
  }

  /** What is signed ends with the chain id and two zeros, which binds the signature to the chain. */
  lemma LegacyToSign(tx: Transaction) returns (f: seq<Item>)
    requires tx.Legacy? && Fits(SigningItem(tx))
    ensures Decode(SigningBytes(tx)) == Some(Parsed(List(f), [])) && |f| == 9
    ensures f[0] == Str(BigEndian(tx.nonce)) && f[1] == Str(BigEndian(tx.gasPrice))
    ensures f[2] == Str(BigEndian(tx.gasLimit)) && f[3] == Str(if tx.to.Some? then tx.to.value else [])
    ensures f[4] == Str(BigEndian(tx.value)) && f[5] == Str(tx.data)
    ensures f[6] == Str(BigEndian(tx.chainId)) && f[7] == Str([]) && f[8] == Str([])
  {
    SigningDecodes(tx);
    LegacyFields(tx);
    f := SigningItem(tx).items;
    assert BigEndian(0) == [];
  }
}
