/**
 * The three transaction types as RLP items, and the decoder that inverts their signed encodings.
 * Field orders are those of EIP-155, EIP-2930 and EIP-1559; the type byte is that of EIP-2718.
 */
module Transactions {
  import opened Words
  import opened Rlp

  type Address = bs: Bytes | |bs| == 20 witness seq(20, _ => 0)
  type B256 = bs: Bytes | |bs| == 32 witness seq(32, _ => 0)

  datatype AccessListItem = AccessListItem(address: Address, storageKeys: seq<B256>)

  datatype Transaction =
    | Legacy(nonce: u64, gasPrice: u256, gasLimit: u64, to: Option<Address>, value: u256, data: Bytes, chainId: u64)
    | Eip2930(chainId: u64, nonce: u64, gasPrice: u256, gasLimit: u64, to: Option<Address>, value: u256, data: Bytes,
              accessList: seq<AccessListItem>)
    | Eip1559(chainId: u64, nonce: u64, maxPriorityFeePerGas: u256, maxFeePerGas: u256, gasLimit: u64,
              to: Option<Address>, value: u256, data: Bytes, accessList: seq<AccessListItem>)

  datatype Signature = Signature(r: B256, s: B256, v: u64)

  // ---------- Items ----------

  function UintItem(n: nat): Item {
    Str(BigEndian(n))
  }

  function ToItem(to: Option<Address>): Item {
    match to
    case Some(address) => Str(address)
    case None => Str([])
  }

  function KeyItems(keys: seq<B256>): seq<Item> {
    if keys == [] then [] else [Str(keys[0])] + KeyItems(keys[1..])
  }

  function AccessItem(item: AccessListItem): Item {
    List([Str(item.address), List(KeyItems(item.storageKeys))])
  }

  function AccessItems(list: seq<AccessListItem>): seq<Item> {
    if list == [] then [] else [AccessItem(list[0])] + AccessItems(list[1..])
  }

  /** A signature scalar without its leading zero bytes. */
  function StripZeros(bs: Bytes): Bytes {
    if bs != [] && bs[0] == 0 then StripZeros(bs[1..]) else bs
  }

  function ScalarItem(scalar: B256): Item {
    Str(StripZeros(scalar))
  }

  /** The fields both the signing and the signed form of a transaction start with. */
  function CommonFields(tx: Transaction): seq<Item> {
    match tx
    case Legacy(nonce, gasPrice, gasLimit, to, value, data, _) =>
      [UintItem(nonce), UintItem(gasPrice), UintItem(gasLimit), ToItem(to), UintItem(value), Str(data)]
    case Eip2930(chainId, nonce, gasPrice, gasLimit, to, value, data, list) =>
      [UintItem(chainId), UintItem(nonce), UintItem(gasPrice), UintItem(gasLimit), ToItem(to), UintItem(value),
       Str(data), List(AccessItems(list))]
    case Eip1559(chainId, nonce, tip, maxFee, gasLimit, to, value, data, list) =>
      [UintItem(chainId), UintItem(nonce), UintItem(tip), UintItem(maxFee), UintItem(gasLimit), ToItem(to),
       UintItem(value), Str(data), List(AccessItems(list))]
  }

  function SignatureFields(sig: Signature): seq<Item> {
    [UintItem(sig.v), ScalarItem(sig.r), ScalarItem(sig.s)]
  }

  function SigningItem(tx: Transaction): Item {
    List(CommonFields(tx) + if tx.Legacy? then [UintItem(tx.chainId), UintItem(0), UintItem(0)] else [])
  }

  function SignedItem(tx: Transaction, sig: Signature): Item {
    List(CommonFields(tx) + SignatureFields(sig))
  }

  function TypePrefix(tx: Transaction): Bytes {
    match tx
    case Legacy(_, _, _, _, _, _, _) => []
    case Eip2930(_, _, _, _, _, _, _, _) => [1]
    case Eip1559(_, _, _, _, _, _, _, _, _) => [2]
  }

  /** The bytes that are hashed and signed. */
  function SigningBytes(tx: Transaction): Bytes
    requires Fits(SigningItem(tx))
  {
    TypePrefix(tx) + Encode(SigningItem(tx))
  }

  /** The bytes that are broadcast. */
  function SignedBytes(tx: Transaction, sig: Signature): Bytes
    requires Fits(SignedItem(tx, sig))
  {
    TypePrefix(tx) + Encode(SignedItem(tx, sig))
  }

  // ---------- Decoding ----------

  function DecodeUint(item: Item, limit: nat): Option<nat> {
    if item.Str? && NoLeadingZero(item.bytes) && Value(item.bytes) < limit then Some(Value(item.bytes)) else None
  }

  function DecodeU64(item: Item): Option<u64> {
    DecodeUint(item, U64_LIMIT)
  }

  function DecodeU256(item: Item): Option<u256> {
    DecodeUint(item, U256_LIMIT)
  }

  function DecodeTo(item: Item): Option<Option<Address>> {
    if item.List? then None
    else if item.bytes == [] then Some(None)
    else if |item.bytes| == 20 then Some(Some(item.bytes))
    else None
  }

  function DecodeData(item: Item): Option<Bytes> {
    if item.Str? then Some(item.bytes) else None
  }

  function Zeros(n: nat): Bytes {
    if n == 0 then [] else [0] + Zeros(n - 1)
  }

  /** A scalar padded back to 32 bytes. */
  function DecodeScalar(item: Item): Option<B256> {
    if item.Str? && |item.bytes| <= 32 && NoLeadingZero(item.bytes) then
      ZerosLength(32 - |item.bytes|);
      Some(Zeros(32 - |item.bytes|) + item.bytes)
    else None
  }

  lemma {:induction false} ZerosLength(n: nat)
    ensures |Zeros(n)| == n
  {
    if n > 0 {
      ZerosLength(n - 1);
    }
  }

  function DecodeKeys(items: seq<Item>): Option<seq<B256>> {
    if items == [] then Some([])
    else if items[0].Str? && |items[0].bytes| == 32 then
      match DecodeKeys(items[1..])
      case None => None
      case Some(keys) => Some([items[0].bytes] + keys)
    else None
  }

  function DecodeAccessItem(item: Item): Option<AccessListItem> {
    if item.List? && |item.items| == 2 && item.items[0].Str? && |item.items[0].bytes| == 20 && item.items[1].List? then
      match DecodeKeys(item.items[1].items)
      case None => None
      case Some(keys) => Some(AccessListItem(item.items[0].bytes, keys))
    else None
  }

  function DecodeAccessItems(items: seq<Item>): Option<seq<AccessListItem>> {
    if items == [] then Some([])
    else
      match DecodeAccessItem(items[0])
      case None => None
      case Some(head) =>
        match DecodeAccessItems(items[1..])
        case None => None
        case Some(tail) => Some([head] + tail)
  }

  function DecodeAccessList(item: Item): Option<seq<AccessListItem>> {
    if item.List? then DecodeAccessItems(item.items) else None
  }

  function DecodeSignature(items: seq<Item>): Option<Signature>
    requires |items| == 3
  {
    var v, r, s := DecodeU64(items[0]), DecodeScalar(items[1]), DecodeScalar(items[2]);
    if v.Some? && r.Some? && s.Some? then Some(Signature(r.value, s.value, v.value)) else None
  }

  /** The fields of a legacy transaction; the chain id is only present inside `v`, so it reads as zero. */
  function DecodeLegacy(f: seq<Item>): Option<Transaction>
    requires |f| == 6
  {
    var nonce, gasPrice, gasLimit := DecodeU64(f[0]), DecodeU256(f[1]), DecodeU64(f[2]);
    var to, value, data := DecodeTo(f[3]), DecodeU256(f[4]), DecodeData(f[5]);
    if nonce.Some? && gasPrice.Some? && gasLimit.Some? && to.Some? && value.Some? && data.Some? then
      Some(Legacy(nonce.value, gasPrice.value, gasLimit.value, to.value, value.value, data.value, 0))
    else None
  }

  function DecodeEip2930(f: seq<Item>): Option<Transaction>
    requires |f| == 8
  {
    var chainId, nonce, gasPrice, gasLimit := DecodeU64(f[0]), DecodeU64(f[1]), DecodeU256(f[2]), DecodeU64(f[3]);
    var to, value, data, list := DecodeTo(f[4]), DecodeU256(f[5]), DecodeData(f[6]), DecodeAccessList(f[7]);
    if && chainId.Some? && nonce.Some? && gasPrice.Some? && gasLimit.Some?
       && to.Some? && value.Some? && data.Some? && list.Some? then
      Some(Eip2930(chainId.value, nonce.value, gasPrice.value, gasLimit.value, to.value, value.value, data.value,
                   list.value))
    else None
  }

  function DecodeEip1559(f: seq<Item>): Option<Transaction>
    requires |f| == 9
  {
    var chainId, nonce, tip, maxFee := DecodeU64(f[0]), DecodeU64(f[1]), DecodeU256(f[2]), DecodeU256(f[3]);
    var gasLimit, to, value, data := DecodeU64(f[4]), DecodeTo(f[5]), DecodeU256(f[6]), DecodeData(f[7]);
    var list := DecodeAccessList(f[8]);
    if && chainId.Some? && nonce.Some? && tip.Some? && maxFee.Some? && gasLimit.Some?
       && to.Some? && value.Some? && data.Some? && list.Some? then
      Some(Eip1559(chainId.value, nonce.value, tip.value, maxFee.value, gasLimit.value, to.value, value.value,
                   data.value, list.value))
    else None
  }

  datatype SignedTransaction = SignedTransaction(tx: Transaction, sig: Signature)

  /** The items of a top-level list that fills the whole text. */
  function DecodeList(bs: Bytes): Option<seq<Item>> {
    match Decode(bs)
    case None => None
    case Some(Parsed(item, rest)) => if rest == [] && item.List? then Some(item.items) else None
  }

  /** The transaction in a list of fields, given its type: 0, 1 or 2. */
  function DecodeBody(envelope: nat, fields: seq<Item>): Option<Transaction> {
    if envelope == 0 && |fields| == 6 then DecodeLegacy(fields)
    else if envelope == 1 && |fields| == 8 then DecodeEip2930(fields)
    else if envelope == 2 && |fields| == 9 then DecodeEip1559(fields)
    else None
  }

  /** The last three fields are the signature. */
  function DecodeFields(envelope: nat, fields: seq<Item>): Option<SignedTransaction> {
    if |fields| < 3 then None
    else
      var tx := DecodeBody(envelope, fields[..|fields| - 3]);
      var sig := DecodeSignature(fields[|fields| - 3..]);
      if tx.Some? && sig.Some? then Some(SignedTransaction(tx.value, sig.value)) else None
  }

  /** A decoder for broadcast bytes, choosing the type by the first byte. */
  function DecodeSigned(bs: Bytes): Option<SignedTransaction> {
    if bs == [] then None
    else
      var envelope := if bs[0] == 1 || bs[0] == 2 then bs[0] else 0;
      match DecodeList(if envelope == 0 then bs else bs[1..])
      case None => None
      case Some(fields) => DecodeFields(envelope, fields)
  }

  /** What the signed bytes say of a transaction: all of it, but for a legacy chain id. */
  function Broadcastable(tx: Transaction): Transaction {
    match tx
    case Legacy(nonce, gasPrice, gasLimit, to, value, data, _) => Legacy(nonce, gasPrice, gasLimit, to, value, data, 0)
    case Eip2930(_, _, _, _, _, _, _, _) => tx
    case Eip1559(_, _, _, _, _, _, _, _, _) => tx
  }

  function Envelope(tx: Transaction): nat {
    if tx.Legacy? then 0 else if tx.Eip2930? then 1 else 2
  }

  // ---------- Field by field ----------

  lemma UintInverts(n: nat, limit: nat)
    requires n < limit
    ensures DecodeUint(UintItem(n), limit) == Some(n)
  {
    BigEndianRoundTrip(n);
  }

  lemma UintIsCanonical(item: Item, limit: nat)
    requires DecodeUint(item, limit).Some?
    ensures UintItem(DecodeUint(item, limit).value) == item
  {
    ValueRoundTrip(item.bytes);
  }

  lemma {:induction false} StripThenPad(bs: Bytes)
    ensures |StripZeros(bs)| <= |bs| && NoLeadingZero(StripZeros(bs))
    ensures Zeros(|bs| - |StripZeros(bs)|) + StripZeros(bs) == bs
    decreases |bs|
  {
    if bs != [] && bs[0] == 0 {
      StripThenPad(bs[1..]);
      assert bs == [0] + bs[1..];
    }
  }

  lemma {:induction false} PadThenStrip(n: nat, bs: Bytes)
    requires NoLeadingZero(bs)
    ensures StripZeros(Zeros(n) + bs) == bs
    decreases n
  {
    if n > 0 {
      PadThenStrip(n - 1, bs);
      assert (Zeros(n) + bs)[1..] == Zeros(n - 1) + bs;
    } else {
      assert Zeros(0) + bs == bs;
    }
  }

  /** The canonical scalar is the shortest big-endian form of the 32-byte number. */
  lemma ScalarIsMinimal(scalar: B256)
    ensures StripZeros(scalar) == BigEndian(Value(scalar))
  {
    StripThenPad(scalar);
    StripKeepsValue(scalar);
    ValueRoundTrip(StripZeros(scalar));
  }

  lemma {:induction false} StripKeepsValue(bs: Bytes)
    ensures Value(StripZeros(bs)) == Value(bs)
    decreases |bs|
  {
    if bs != [] && bs[0] == 0 {
      StripKeepsValue(bs[1..]);
      LeadingZeroKeepsValue(bs[1..]);
      assert bs == [0] + bs[1..];
    }
  }

  lemma {:induction false} LeadingZeroKeepsValue(bs: Bytes)
    ensures Value([0] + bs) == Value(bs)
    decreases |bs|
  {
    var z: Bytes := [0] + bs;
    if bs == [] {
      assert z[..0] == [];
    } else {
      var front := bs[..|bs| - 1];
      LeadingZeroKeepsValue(front);
      assert z[..|z| - 1] == [0] + front;
    }
  }

  lemma ScalarInverts(scalar: B256)
    ensures DecodeScalar(ScalarItem(scalar)) == Some(scalar)
  {
    StripThenPad(scalar);
  }

  lemma ScalarIsCanonical(item: Item)
    requires DecodeScalar(item).Some?
    ensures ScalarItem(DecodeScalar(item).value) == item
  {
    PadThenStrip(32 - |item.bytes|, item.bytes);
  }

  lemma {:induction false} KeysInvert(keys: seq<B256>)
    ensures DecodeKeys(KeyItems(keys)) == Some(keys)
  {
    if keys != [] {
      KeysInvert(keys[1..]);
      assert KeyItems(keys)[1..] == KeyItems(keys[1..]);
      assert keys == [keys[0]] + keys[1..];
    }
  }

  lemma {:induction false} KeysAreCanonical(items: seq<Item>)
    requires DecodeKeys(items).Some?
    ensures KeyItems(DecodeKeys(items).value) == items
  {
    if items != [] {
      KeysAreCanonical(items[1..]);
      var keys := DecodeKeys(items).value;
      assert keys[1..] == DecodeKeys(items[1..]).value && keys[0] == items[0].bytes;
      assert items == [items[0]] + items[1..];
    }
  }

  lemma AccessItemInverts(item: AccessListItem)
    ensures DecodeAccessItem(AccessItem(item)) == Some(item)
  {
    KeysInvert(item.storageKeys);
  }

  lemma {:induction false} AccessItemsInvert(list: seq<AccessListItem>)
    ensures DecodeAccessItems(AccessItems(list)) == Some(list)
  {
    if list != [] {
      AccessItemInverts(list[0]);
      AccessItemsInvert(list[1..]);
      assert AccessItems(list)[1..] == AccessItems(list[1..]);
      assert list == [list[0]] + list[1..];
    }
  }

  lemma AccessListInverts(list: seq<AccessListItem>)
    ensures DecodeAccessList(List(AccessItems(list))) == Some(list)
  {
    AccessItemsInvert(list);
  }

  lemma U64Inverts(n: u64)
    ensures DecodeU64(UintItem(n)) == Some(n)
  {
    UintInverts(n, U64_LIMIT);
  }

  lemma U256Inverts(n: u256)
    ensures DecodeU256(UintItem(n)) == Some(n)
  {
    UintInverts(n, U256_LIMIT);
  }

  lemma ToInverts(to: Option<Address>)
    ensures DecodeTo(ToItem(to)) == Some(to)
  {
  }

  lemma AccessItemIsCanonical(item: Item)
    requires DecodeAccessItem(item).Some?
    ensures AccessItem(DecodeAccessItem(item).value) == item
  {
    KeysAreCanonical(item.items[1].items);
    assert item.items == [item.items[0], item.items[1]];
  }

  lemma {:induction false} AccessItemsAreCanonical(items: seq<Item>)
    requires DecodeAccessItems(items).Some?
    ensures AccessItems(DecodeAccessItems(items).value) == items
  {
    if items != [] {
      AccessItemIsCanonical(items[0]);
      AccessItemsAreCanonical(items[1..]);
      var list := DecodeAccessItems(items).value;
      assert list[1..] == DecodeAccessItems(items[1..]).value;
      assert items == [items[0]] + items[1..];
    }
  }

  // ---------- Whole transactions ----------

  lemma LegacyInverts(tx: Transaction)
    requires tx.Legacy?
    ensures DecodeLegacy(CommonFields(tx)) == Some(Broadcastable(tx))
  {
    U64Inverts(tx.nonce);
    U256Inverts(tx.gasPrice);
    U64Inverts(tx.gasLimit);
    ToInverts(tx.to);
    U256Inverts(tx.value);
  }

  lemma Eip2930Inverts(tx: Transaction)
    requires tx.Eip2930?
    ensures DecodeEip2930(CommonFields(tx)) == Some(tx)
  {
    U64Inverts(tx.chainId);
    U64Inverts(tx.nonce);
    U256Inverts(tx.gasPrice);
    U64Inverts(tx.gasLimit);
    ToInverts(tx.to);
    U256Inverts(tx.value);
    AccessListInverts(tx.accessList);
  }

  lemma Eip1559Inverts(tx: Transaction)
    requires tx.Eip1559?
    ensures DecodeEip1559(CommonFields(tx)) == Some(tx)
  {
    U64Inverts(tx.chainId);
    U64Inverts(tx.nonce);
    U256Inverts(tx.maxPriorityFeePerGas);
    U256Inverts(tx.maxFeePerGas);
    U64Inverts(tx.gasLimit);
    ToInverts(tx.to);
    U256Inverts(tx.value);
    AccessListInverts(tx.accessList);
  }

  lemma SignatureInverts(sig: Signature)
    ensures DecodeSignature(SignatureFields(sig)) == Some(sig)
  {
    UintInverts(sig.v, U64_LIMIT);
    ScalarInverts(sig.r);
    ScalarInverts(sig.s);
  }

  lemma DecodeListInverts(items: seq<Item>)
    requires Fits(List(items))
    ensures DecodeList(Encode(List(items))) == Some(items)
    ensures Encode(List(items))[0] >= 0xc0
  {
    DecodeInverts(List(items), []);
    assert Encode(List(items)) + [] == Encode(List(items));
  }

  /** The first byte tells the three types apart. */
  lemma FirstByteTellsType(tx: Transaction, sig: Signature)
    requires Fits(SignedItem(tx, sig))
    ensures SignedBytes(tx, sig) != []
    ensures tx.Legacy? <==> SignedBytes(tx, sig)[0] >= 0xc0
    ensures tx.Eip2930? <==> SignedBytes(tx, sig)[0] == 1
    ensures tx.Eip1559? <==> SignedBytes(tx, sig)[0] == 2
  {
    DecodeListInverts(CommonFields(tx) + SignatureFields(sig));
  }

  lemma BodyInverts(tx: Transaction)
    ensures DecodeBody(Envelope(tx), CommonFields(tx)) == Some(Broadcastable(tx))
  {
    match tx
    case Legacy(_, _, _, _, _, _, _) => LegacyInverts(tx);
    case Eip2930(_, _, _, _, _, _, _, _) => Eip2930Inverts(tx);
    case Eip1559(_, _, _, _, _, _, _, _, _) => Eip1559Inverts(tx);
  }

  lemma FieldsInvert(tx: Transaction, sig: Signature)
    ensures DecodeFields(Envelope(tx), CommonFields(tx) + SignatureFields(sig)) ==
            Some(SignedTransaction(Broadcastable(tx), sig))
  {
    var common, signature := CommonFields(tx), SignatureFields(sig);
    var fields := common + signature;
    assert fields[..|fields| - 3] == common && fields[|fields| - 3..] == signature;
    BodyInverts(tx);
    SignatureInverts(sig);
  }

  /** Decoding the broadcast bytes gives back every field and the signature. */
  lemma DecodeSignedInverts(tx: Transaction, sig: Signature)
    requires Fits(SignedItem(tx, sig))
    ensures DecodeSigned(SignedBytes(tx, sig)) == Some(SignedTransaction(Broadcastable(tx), sig))
  {
    var bs := SignedBytes(tx, sig);
    DecodeListInverts(CommonFields(tx) + SignatureFields(sig));
    FirstByteTellsType(tx, sig);
    FieldsInvert(tx, sig);
    assert bs[|TypePrefix(tx)|..] == Encode(SignedItem(tx, sig));
  }

  /** Broadcast bytes determine the transaction and its signature. */
  lemma SignedBytesAreInjective(tx: Transaction, sig: Signature, tx': Transaction, sig': Signature)
    requires Fits(SignedItem(tx, sig)) && Fits(SignedItem(tx', sig'))
    requires SignedBytes(tx, sig) == SignedBytes(tx', sig')
    ensures Broadcastable(tx) == Broadcastable(tx') && sig == sig'
  {
    DecodeSignedInverts(tx, sig);
    DecodeSignedInverts(tx', sig');
  }

  /** Two transactions with the same signing bytes, and so the same signing hash input, are the same transaction. */
  lemma SigningBytesAreInjective(tx: Transaction, tx': Transaction)
    requires Fits(SigningItem(tx)) && Fits(SigningItem(tx'))
    requires SigningBytes(tx) == SigningBytes(tx')
    ensures tx == tx'
  {
    SigningTypeIsFirstByte(tx);
    SigningTypeIsFirstByte(tx');
    assert SigningBytes(tx)[|TypePrefix(tx)|..] == Encode(SigningItem(tx));
    assert SigningBytes(tx')[|TypePrefix(tx')|..] == Encode(SigningItem(tx'));
    EncodeIsInjective(SigningItem(tx), SigningItem(tx'));
    SigningItemIsInjective(tx, tx');
  }

  lemma SigningItemIsInjective(tx: Transaction, tx': Transaction)
    requires Envelope(tx) == Envelope(tx') && SigningItem(tx).items == SigningItem(tx').items
    ensures tx == tx'
  {
    var n := |CommonFields(tx)|;
    assert SigningItem(tx).items[..n] == CommonFields(tx) && SigningItem(tx').items[..n] == CommonFields(tx');
    BodyInverts(tx);
    BodyInverts(tx');
    if tx.Legacy? {
      assert SigningItem(tx).items[n] == UintItem(tx.chainId) && SigningItem(tx').items[n] == UintItem(tx'.chainId);
      U64Inverts(tx.chainId);
      U64Inverts(tx'.chainId);
    }
  }

  lemma SigningTypeIsFirstByte(tx: Transaction)
    requires Fits(SigningItem(tx))
    ensures SigningBytes(tx) != []
    ensures Envelope(tx) == if SigningBytes(tx)[0] >= 0xc0 then 0 else SigningBytes(tx)[0]
  {
    DecodeListInverts(SigningItem(tx).items);
  }

  // ---------- Only broadcast bytes decode ----------

  lemma U64IsCanonical(item: Item)
    requires DecodeU64(item).Some?
    ensures UintItem(DecodeU64(item).value) == item
  {
    UintIsCanonical(item, U64_LIMIT);
  }

  lemma U256IsCanonical(item: Item)
    requires DecodeU256(item).Some?
    ensures UintItem(DecodeU256(item).value) == item
  {
    UintIsCanonical(item, U256_LIMIT);
  }

  lemma ToIsCanonical(item: Item)
    requires DecodeTo(item).Some?
    ensures ToItem(DecodeTo(item).value) == item
  {
  }

  lemma AccessListIsCanonical(item: Item)
    requires DecodeAccessList(item).Some?
    ensures List(AccessItems(DecodeAccessList(item).value)) == item
  {
    AccessItemsAreCanonical(item.items);
  }

  lemma LegacyIsCanonical(f: seq<Item>)
    requires |f| == 6 && DecodeLegacy(f).Some?
    ensures CommonFields(DecodeLegacy(f).value) == f
  {
    U64IsCanonical(f[0]);
    U256IsCanonical(f[1]);
    U64IsCanonical(f[2]);
    ToIsCanonical(f[3]);
    U256IsCanonical(f[4]);
  }

  lemma Eip2930IsCanonical(f: seq<Item>)
    requires |f| == 8 && DecodeEip2930(f).Some?
    ensures CommonFields(DecodeEip2930(f).value) == f
  {
    U64IsCanonical(f[0]);
    U64IsCanonical(f[1]);
    U256IsCanonical(f[2]);
    U64IsCanonical(f[3]);
    ToIsCanonical(f[4]);
    U256IsCanonical(f[5]);
    AccessListIsCanonical(f[7]);
    assert f == [f[0], f[1], f[2], f[3], f[4], f[5], f[6], f[7]];
  }

  lemma Eip1559IsCanonical(f: seq<Item>)
    requires |f| == 9 && DecodeEip1559(f).Some?
    ensures CommonFields(DecodeEip1559(f).value) == f
  {
    U64IsCanonical(f[0]);
    U64IsCanonical(f[1]);
    U256IsCanonical(f[2]);
    U256IsCanonical(f[3]);
    U64IsCanonical(f[4]);
    ToIsCanonical(f[5]);
    U256IsCanonical(f[6]);
    AccessListIsCanonical(f[8]);
    assert f == [f[0], f[1], f[2], f[3], f[4], f[5], f[6], f[7], f[8]];
  }

  lemma SignatureIsCanonical(f: seq<Item>)
    requires |f| == 3 && DecodeSignature(f).Some?
    ensures SignatureFields(DecodeSignature(f).value) == f
  {
    U64IsCanonical(f[0]);
    ScalarIsCanonical(f[1]);
    ScalarIsCanonical(f[2]);
  }

  lemma FieldsAreCanonical(envelope: nat, fields: seq<Item>)
    requires DecodeFields(envelope, fields).Some?
    ensures var d := DecodeFields(envelope, fields).value;
            Envelope(d.tx) == envelope && CommonFields(d.tx) + SignatureFields(d.sig) == fields
  {
    var common, signature := fields[..|fields| - 3], fields[|fields| - 3..];
    SignatureIsCanonical(signature);
    BodyIsCanonical(envelope, common);
    assert common + signature == fields;
  }

  lemma BodyIsCanonical(envelope: nat, fields: seq<Item>)
    requires DecodeBody(envelope, fields).Some?
    ensures var tx := DecodeBody(envelope, fields).value; Envelope(tx) == envelope && CommonFields(tx) == fields
  {
    if envelope == 0 {
      LegacyIsCanonical(fields);
    } else if envelope == 1 {
      Eip2930IsCanonical(fields);
    } else {
      Eip1559IsCanonical(fields);
    }
  }

  /** The parts the decoder takes broadcast bytes apart into. */
  lemma DecodeSignedParts(bs: Bytes) returns (envelope: byte, body: Bytes, fields: seq<Item>)
    requires DecodeSigned(bs).Some?
    ensures envelope <= 2 && bs == (if envelope == 0 then [] else [envelope]) + body
    ensures DecodeList(body) == Some(fields) && DecodeFields(envelope, fields) == DecodeSigned(bs)
  {
    envelope := if bs[0] == 1 || bs[0] == 2 then bs[0] else 0;
    body := if envelope == 0 then bs else bs[1..];
    fields := DecodeList(body).value;
    assert envelope != 0 ==> bs == [envelope] + body;
  }

  lemma SignedBytesFrom(tx: Transaction, sig: Signature, body: Bytes, fields: seq<Item>)
    requires CommonFields(tx) + SignatureFields(sig) == fields
    requires Fits(List(fields)) && body == Encode(List(fields))
    ensures Fits(SignedItem(tx, sig)) && SignedBytes(tx, sig) == TypePrefix(tx) + body
  {
  }

  /** Bytes decode only if they are the encoding of what they decode to. */
  lemma SignedBytesInvert(bs: Bytes)
    requires DecodeSigned(bs).Some?
    ensures var d := DecodeSigned(bs).value; Fits(SignedItem(d.tx, d.sig)) && SignedBytes(d.tx, d.sig) == bs
  {
    var envelope, body, fields := DecodeSignedParts(bs);
    var d := DecodeSigned(bs).value;
    FieldsAreCanonical(envelope, fields);
    DecodedListIsCanonical(body);
    SignedBytesFrom(d.tx, d.sig, body, fields);
  }

  lemma DecodedListIsCanonical(bs: Bytes)
    requires DecodeList(bs).Some?
    ensures Fits(List(DecodeList(bs).value)) && bs == Encode(List(DecodeList(bs).value))
  {
    EncodeInverts(bs);
    var item := Decode(bs).value.item;
    assert Encode(item) + [] == Encode(item);
  }

  // ---------- The chain id of a legacy transaction ----------

  /** EIP-155: the recovery id and the chain id in one word, which wraps. */
  function LegacyV(recoveryId: nat, chainId: u64): u64
    requires recoveryId < 2
  {
    (recoveryId + 35 + chainId * 2) % U64_LIMIT
  }

  predicate LegacyVFits(recoveryId: nat, chainId: u64) {
    recoveryId + 35 + chainId * 2 < U64_LIMIT
  }

  /** The chain id can be read back exactly when the word did not wrap. */
  lemma ChainIdOfVIff(recoveryId: nat, chainId: u64)
    requires recoveryId < 2
    ensures LegacyV(recoveryId, chainId) >= 35 && (LegacyV(recoveryId, chainId) - 35) / 2 == chainId <==>
            recoveryId + 35 + chainId * 2 < 0x1_0000_0000_0000_0000
    ensures LegacyVFits(recoveryId, chainId) ==>
              LegacyV(recoveryId, chainId) >= 35 && (LegacyV(recoveryId, chainId) - 35) % 2 == recoveryId
  {
  }

  /** What was decoded, with the chain id of a legacy transaction read from its `v`. */
  function WithChainId(d: SignedTransaction): SignedTransaction {
    match d.tx
    case Legacy(nonce, gasPrice, gasLimit, to, value, data, _) =>
      if d.sig.v < 35 then d
      else SignedTransaction(Legacy(nonce, gasPrice, gasLimit, to, value, data, (d.sig.v - 35) / 2), d.sig)
    case Eip2930(_, _, _, _, _, _, _, _) => d
    case Eip1559(_, _, _, _, _, _, _, _, _) => d
  }

  /** The signature is one the signer makes for the transaction. */
  ghost predicate SignerMade(tx: Transaction, sig: Signature) {
    tx.Legacy? ==> exists recoveryId: nat | recoveryId < 2 ::
                     LegacyVFits(recoveryId, tx.chainId) && sig.v == LegacyV(recoveryId, tx.chainId)
  }

  /** Decoding broadcast bytes and reading the chain id gives back every field of all three types. */
  lemma DecodeWithChainIdInverts(tx: Transaction, sig: Signature)
    requires Fits(SignedItem(tx, sig)) && SignerMade(tx, sig)
    ensures DecodeSigned(SignedBytes(tx, sig)).Some?
    ensures WithChainId(DecodeSigned(SignedBytes(tx, sig)).value) == SignedTransaction(tx, sig)
  {
    DecodeSignedInverts(tx, sig);
    ChainIdIsRead(tx, sig);
  }

  lemma ChainIdIsRead(tx: Transaction, sig: Signature)
    requires SignerMade(tx, sig)
    ensures WithChainId(SignedTransaction(Broadcastable(tx), sig)) == SignedTransaction(tx, sig)
  {
    if tx.Legacy? {
      var recoveryId: nat :| recoveryId < 2 && LegacyVFits(recoveryId, tx.chainId) && sig.v == LegacyV(recoveryId, tx.chainId);
      ChainIdOfVIff(recoveryId, tx.chainId);
    }
  }

  /** So the bytes the signer broadcasts determine the whole transaction, its chain id included. */
  lemma SignerBytesAreInjective(tx: Transaction, sig: Signature, tx': Transaction, sig': Signature)
    requires Fits(SignedItem(tx, sig)) && Fits(SignedItem(tx', sig'))
    requires SignerMade(tx, sig) && SignerMade(tx', sig')
    requires SignedBytes(tx, sig) == SignedBytes(tx', sig')
    ensures tx == tx' && sig == sig'
  {
    DecodeWithChainIdInverts(tx, sig);
    DecodeWithChainIdInverts(tx', sig');
  }
}
