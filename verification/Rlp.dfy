/** Recursive Length Prefix, as in Appendix B of the Ethereum Yellow Paper. */
module Rlp {
  import opened Words

  type byte = b: int | 0 <= b < 256
  type Bytes = seq<byte>

  datatype Item = Str(bytes: Bytes) | List(items: seq<Item>)

  // ---------- Integers ----------

  /** The shortest big-endian form; zero is the empty string. */
  function BigEndian(n: nat): Bytes {
    if n == 0 then [] else BigEndian(n / 256) + [n % 256]
  }

  function Value(bs: Bytes): nat {
    if bs == [] then 0 else 256 * Value(bs[..|bs| - 1]) + bs[|bs| - 1]
  }

  predicate NoLeadingZero(bs: Bytes) {
    bs == [] || bs[0] != 0
  }

  lemma {:induction false} BigEndianRoundTrip(n: nat)
    ensures Value(BigEndian(n)) == n && NoLeadingZero(BigEndian(n))
    ensures n != 0 ==> BigEndian(n) != []
  {
    if n != 0 {
      BigEndianRoundTrip(n / 256);
      assert BigEndian(n)[..|BigEndian(n)| - 1] == BigEndian(n / 256);
      if n < 256 {
        assert BigEndian(0) == [];
      }
    }
  }

  lemma {:induction false} ValueRoundTrip(bs: Bytes)
    requires NoLeadingZero(bs)
    ensures BigEndian(Value(bs)) == bs
    ensures bs != [] ==> Value(bs) > 0
  {
    if bs != [] {
      var front := bs[..|bs| - 1];
      ValueRoundTrip(front);
      assert Value(bs) / 256 == Value(front) && Value(bs) % 256 == bs[|bs| - 1];
      assert bs == front + [bs[|bs| - 1]];
    }
  }

  function Pow256(k: nat): nat {
    if k == 0 then 1 else 256 * Pow256(k - 1)
  }

  /** A number has at most `k` bytes exactly when it is below 256 to the k. */
  lemma {:induction false} WidthIff(n: nat, k: nat)
    ensures |BigEndian(n)| <= k <==> n < Pow256(k)
    decreases k
  {
    if k == 0 {
    } else if n == 0 {
      Pow256IsPositive(k);
    } else {
      WidthIff(n / 256, k - 1);
      assert n / 256 < Pow256(k - 1) <==> n < 256 * Pow256(k - 1);
    }
  }

  lemma {:induction false} Pow256IsPositive(k: nat)
    ensures Pow256(k) > 0
  {
    if k > 0 {
      Pow256IsPositive(k - 1);
    }
  }

  lemma {:induction false} ValueBound(bs: Bytes)
    ensures Value(bs) < Pow256(|bs|)
  {
    if bs != [] {
      ValueBound(bs[..|bs| - 1]);
    }
  }

  lemma Pow256Words()
    ensures Pow256(8) == U64_LIMIT && Pow256(32) == U256_LIMIT
  {
    assert Pow256(4) == 0x1_0000_0000;
    assert Pow256(8) == U64_LIMIT;
    assert Pow256(12) == U64_LIMIT * 0x1_0000_0000;
    assert Pow256(16) == U64_LIMIT * U64_LIMIT;
    assert Pow256(20) == U64_LIMIT * U64_LIMIT * 0x1_0000_0000;
    assert Pow256(24) == U64_LIMIT * U64_LIMIT * U64_LIMIT;
    assert Pow256(28) == U64_LIMIT * U64_LIMIT * U64_LIMIT * 0x1_0000_0000;
  }

  /** Every byte is the digit to base 256 of its place, the most significant first. */
  lemma {:induction false} BigEndianDigits(n: nat, i: nat)
    requires i < |BigEndian(n)|
    ensures Pow256(|BigEndian(n)| - 1 - i) > 0
    ensures BigEndian(n)[i] == n / Pow256(|BigEndian(n)| - 1 - i) % 256
    decreases n
  {
    var places := |BigEndian(n)| - 1 - i;
    Pow256IsPositive(places);
    if places == 0 {
      assert n / 1 == n;
    } else {
      BigEndianDigits(n / 256, i);
      DivideTwice(n, Pow256(places - 1));
    }
  }

  lemma DivideTwice(n: nat, p: nat)
    requires p > 0
    ensures n / (256 * p) == n / 256 / p
  {
    var q, r := n / 256 / p, n / 256 % p;
    var low := n % 256;
    assert n == 256 * (q * p + r) + low;
    assert 256 * (q * p + r) == q * (256 * p) + 256 * r;
    assert 0 <= 256 * r + low < 256 * p;
    QuotientIs(n, 256 * p, q, 256 * r + low);
  }

  lemma QuotientIs(n: nat, d: nat, q: nat, r: nat)
    requires d > 0 && n == q * d + r && r < d
    ensures n / d == q
  {
    var k := n / d;
    assert k < q ==> (k + 1) * d <= q * d;
    assert k > q ==> (q + 1) * d <= k * d;
  }

  // ---------- Sizes ----------

  /** Bytes a header takes for a payload of the given length. */
  function HeaderSize(length: nat): nat {
    if length < 56 then 1 else 1 + |BigEndian(length)|
  }

  predicate IsByte(bs: Bytes) {
    |bs| == 1 && bs[0] < 0x80
  }

  function Size(item: Item): (n: nat)
    ensures PayloadSize(item) <= n && 1 <= n
    decreases item, 1
  {
    if item.Str? && IsByte(item.bytes) then 1 else HeaderSize(PayloadSize(item)) + PayloadSize(item)
  }

  function PayloadSize(item: Item): nat
    decreases item, 0
  {
    match item
    case Str(bytes) => |bytes|
    case List(items) => SizeAll(items)
  }

  function SizeAll(items: seq<Item>): nat
    decreases items, 0
  {
    if items == [] then 0 else Size(items[0]) + SizeAll(items[1..])
  }

  // ---------- Encoding ----------

  const STRING_BASE: byte := 0x80
  const LIST_BASE: byte := 0xc0

  function Header(base: byte, length: nat): (h: Bytes)
    requires (base == STRING_BASE || base == LIST_BASE) && length < U64_LIMIT
    ensures |h| == HeaderSize(length)
  {
    if length < 56 then [base + length]
    else
      LengthFitsHeader(length);
      [base + 55 + |BigEndian(length)|] + BigEndian(length)
  }

  lemma LengthFitsHeader(length: nat)
    requires 56 <= length < U64_LIMIT
    ensures 1 <= |BigEndian(length)| <= 8
  {
    WidthIff(length, 8);
    Pow256Words();
    BigEndianRoundTrip(length);
  }

  /** Every payload length in an item is a machine word as soon as the outermost one is. */
  predicate Fits(item: Item) {
    PayloadSize(item) < U64_LIMIT
  }

  function Encode(item: Item): (bs: Bytes)
    requires Fits(item)
    ensures |bs| == Size(item)
    decreases item, 0
  {
    match item
    case Str(bytes) => if IsByte(bytes) then bytes else Header(STRING_BASE, |bytes|) + bytes
    case List(items) => Header(LIST_BASE, SizeAll(items)) + EncodeAll(items)
  }

  function EncodeAll(items: seq<Item>): (bs: Bytes)
    requires SizeAll(items) < U64_LIMIT
    ensures |bs| == SizeAll(items)
    decreases items, 0
  {
    if items == [] then [] else Encode(items[0]) + EncodeAll(items[1..])
  }

  /** A string: itself if it is one byte below 128, else its length and its bytes. */
  lemma StringLayout(bytes: Bytes)
    requires |bytes| < U64_LIMIT
    ensures var bs := Encode(Str(bytes));
            && (|bytes| == 1 && bytes[0] < 128 ==> bs == bytes)
            && (|bytes| < 56 && !(|bytes| == 1 && bytes[0] < 128) ==> bs == [128 + |bytes|] + bytes)
            && (|bytes| >= 56 ==>
                  |BigEndian(|bytes|)| <= 8 && bs == [183 + |BigEndian(|bytes|)|] + BigEndian(|bytes|) + bytes)
  {
    if |bytes| >= 56 {
      LengthFitsHeader(|bytes|);
    }
  }

  /** A list: the length of its encoded items, and then those one after the other. */
  lemma ListLayout(items: seq<Item>)
    requires SizeAll(items) < U64_LIMIT
    ensures var payload := EncodeAll(items); var width := |BigEndian(|payload|)|;
            && (|payload| < 56 ==> Encode(List(items)) == [192 + |payload|] + payload)
            && (|payload| >= 56 ==>
                  width <= 8 && Encode(List(items)) == [247 + width] + BigEndian(|payload|) + payload)
  {
    var payload := EncodeAll(items);
    assert Encode(List(items)) == Header(LIST_BASE, |payload|) + payload;
    if |payload| >= 56 {
      LengthFitsHeader(|payload|);
    }
  }

  // ---------- Decoding ----------

  datatype Prefix = Prefix(length: nat, rest: Bytes)

  /** The length a header announces, refusing every form but the shortest. */
  function DecodeHeader(base: byte, bs: Bytes): (r: Option<Prefix>)
    requires base == STRING_BASE || base == LIST_BASE
    requires bs != [] && base <= bs[0] < base + 0x40
    ensures r.Some? ==> |r.value.rest| < |bs|
  {
    if bs[0] < base + 56 then Some(Prefix(bs[0] - base, bs[1..]))
    else
      var width := bs[0] - base - 55;
      if |bs| < 1 + width || bs[1] == 0 || Value(bs[1..1 + width]) < 56 then None
      else Some(Prefix(Value(bs[1..1 + width]), bs[1 + width..]))
  }

  datatype Parsed = Parsed(item: Item, rest: Bytes)

  function Decode(bs: Bytes): (r: Option<Parsed>)
    ensures r.Some? ==> |r.value.rest| < |bs|
    decreases |bs|, 0
  {
    if bs == [] then None
    else if bs[0] < 0x80 then Some(Parsed(Str(bs[..1]), bs[1..]))
    else
      var base: byte := if bs[0] < 0xc0 then STRING_BASE else LIST_BASE;
      match DecodeHeader(base, bs)
      case None => None
      case Some(Prefix(length, rest)) =>
        if |rest| < length then None
        else if base == STRING_BASE then
          if IsByte(rest[..length]) then None else Some(Parsed(Str(rest[..length]), rest[length..]))
        else
          match DecodeAll(rest[..length])
          case None => None
          case Some(items) => Some(Parsed(List(items), rest[length..]))
  }

  function DecodeAll(bs: Bytes): Option<seq<Item>>
    decreases |bs|, 1
  {
    if bs == [] then Some([])
    else
      match Decode(bs)
      case None => None
      case Some(Parsed(item, rest)) =>
        match DecodeAll(rest)
        case None => None
        case Some(items) => Some([item] + items)
  }

  // ---------- Decoding inverts encoding ----------

  lemma DecodeHeaderInverts(base: byte, length: nat, rest: Bytes)
    requires (base == STRING_BASE || base == LIST_BASE) && length < U64_LIMIT
    ensures var bs := Header(base, length) + rest;
            base <= bs[0] < base + 0x40 && DecodeHeader(base, bs) == Some(Prefix(length, rest))
  {
    var bs := Header(base, length) + rest;
    if length >= 56 {
      var be := BigEndian(length);
      LengthFitsHeader(length);
      BigEndianRoundTrip(length);
      assert bs[1..1 + |be|] == be && bs[1 + |be|..] == rest;
    } else {
      assert bs[1..] == rest;
    }
  }

  /** Decoding gives back the encoded item and whatever followed it. */
  lemma {:induction false} DecodeInverts(item: Item, rest: Bytes)
    requires Fits(item)
    ensures Decode(Encode(item) + rest) == Some(Parsed(item, rest))
    decreases item, 0
  {
    var bs := Encode(item) + rest;
    match item
    case Str(bytes) =>
      if IsByte(bytes) {
        assert bs[..1] == bytes && bs[1..] == rest;
      } else {
        assert bs == Header(STRING_BASE, |bytes|) + (bytes + rest);
        DecodeHeaderInverts(STRING_BASE, |bytes|, bytes + rest);
        assert (bytes + rest)[..|bytes|] == bytes && (bytes + rest)[|bytes|..] == rest;
      }
    case List(items) =>
      var payload := EncodeAll(items);
      assert bs == Header(LIST_BASE, |payload|) + (payload + rest);
      DecodeHeaderInverts(LIST_BASE, |payload|, payload + rest);
      assert (payload + rest)[..|payload|] == payload && (payload + rest)[|payload|..] == rest;
      DecodeAllInverts(items);
  }

  lemma {:induction false} DecodeAllInverts(items: seq<Item>)
    requires SizeAll(items) < U64_LIMIT
    ensures DecodeAll(EncodeAll(items)) == Some(items)
    decreases items, 1
  {
    if items != [] {
      DecodeInverts(items[0], EncodeAll(items[1..]));
      DecodeAllInverts(items[1..]);
      EncodeIsNotEmpty(items[0]);
      assert items == [items[0]] + items[1..];
    }
  }

  lemma EncodeIsNotEmpty(item: Item)
    requires Fits(item)
    ensures |Encode(item)| > 0
  {
    assert |Encode(item)| == Size(item);
  }

  // ---------- Encoding inverts decoding ----------

  lemma HeaderInverts(base: byte, bs: Bytes)
    requires (base == STRING_BASE || base == LIST_BASE) && bs != [] && base <= bs[0] < base + 0x40
    requires DecodeHeader(base, bs).Some?
    ensures var p := DecodeHeader(base, bs).value; p.length < U64_LIMIT && bs == Header(base, p.length) + p.rest
  {
    if bs[0] >= base + 56 {
      var width := bs[0] - base - 55;
      var be := bs[1..1 + width];
      ValueRoundTrip(be);
      ValueBound(be);
      Pow256Grows(width, 8);
      Pow256Words();
      assert bs == [bs[0]] + be + bs[1 + width..];
    }
  }

  lemma {:induction false} Pow256Grows(k: nat, m: nat)
    requires k <= m
    ensures Pow256(k) <= Pow256(m)
    decreases m
  {
    if k < m {
      Pow256Grows(k, m - 1);
      Pow256IsPositive(m - 1);
    }
  }

  lemma StringInverts(bs: Bytes)
    requires bs != [] && 0x80 <= bs[0] < 0xc0 && Decode(bs).Some?
    ensures var p := Decode(bs).value; Fits(p.item) && bs == Encode(p.item) + p.rest
  {
    HeaderInverts(STRING_BASE, bs);
    var Prefix(length, rest) := DecodeHeader(STRING_BASE, bs).value;
    StringBody(bs, length, rest);
    assert Decode(bs) == Some(Parsed(Str(rest[..length]), rest[length..]));
  }

  lemma StringBody(bs: Bytes, length: nat, rest: Bytes)
    requires length <= |rest| && length < U64_LIMIT && bs == Header(STRING_BASE, length) + rest
    requires !IsByte(rest[..length])
    ensures Fits(Str(rest[..length])) && bs == Encode(Str(rest[..length])) + rest[length..]
  {
    var body, after := rest[..length], rest[length..];
    assert rest == body + after;
    assert Encode(Str(body)) == Header(STRING_BASE, length) + body;
  }

  /** Only the encoding of an item decodes to it: every accepted text is canonical. */
  lemma {:induction false} EncodeInverts(bs: Bytes)
    requires Decode(bs).Some?
    ensures var p := Decode(bs).value; Fits(p.item) && bs == Encode(p.item) + p.rest
    decreases |bs|, 0
  {
    if bs[0] < 0x80 {
      assert bs == bs[..1] + bs[1..];
    } else if bs[0] < 0xc0 {
      StringInverts(bs);
    } else {
      HeaderInverts(LIST_BASE, bs);
      var Prefix(length, rest) := DecodeHeader(LIST_BASE, bs).value;
      EncodeAllInverts(rest[..length]);
      ListInverts(bs, length, rest, DecodeAll(rest[..length]).value);
    }
  }

  lemma ListInverts(bs: Bytes, length: nat, rest: Bytes, items: seq<Item>)
    requires length <= |rest| && length < U64_LIMIT && bs == Header(LIST_BASE, length) + rest
    requires SizeAll(items) == length && EncodeAll(items) == rest[..length]
    ensures bs == Encode(List(items)) + rest[length..]
  {
    assert rest == rest[..length] + rest[length..];
    assert Encode(List(items)) == Header(LIST_BASE, length) + rest[..length];
  }

  lemma {:induction false} EncodeAllInverts(bs: Bytes)
    requires DecodeAll(bs).Some? && |bs| < U64_LIMIT
    ensures var items := DecodeAll(bs).value; SizeAll(items) == |bs| && EncodeAll(items) == bs
    decreases |bs|, 1
  {
    if bs != [] {
      EncodeInverts(bs);
      var Parsed(item, rest) := Decode(bs).value;
      EncodeAllInverts(rest);
      var items := DecodeAll(rest).value;
      assert ([item] + items)[1..] == items;
    }
  }

  /** Two items with the same encoding are the same item. */
  lemma EncodeIsInjective(a: Item, b: Item)
    requires Fits(a) && Fits(b) && Encode(a) == Encode(b)
    ensures a == b
  {
    DecodeInverts(a, []);
    DecodeInverts(b, []);
  }

  lemma {:induction false} SizeAllSnoc(items: seq<Item>, item: Item)
    ensures SizeAll(items + [item]) == SizeAll(items) + Size(item)
    decreases items
  {
    if items == [] {
      assert [item][1..] == [] && [] + [item] == [item];
    } else {
      SizeAllSnoc(items[1..], item);
      assert (items + [item])[1..] == items[1..] + [item] && (items + [item])[0] == items[0];
    }
  }

  lemma EncodeOne(item: Item)
    requires SizeAll([item]) < U64_LIMIT && Fits(item)
    ensures EncodeAll([item]) == Encode(item)
  {
    assert [item][1..] == [];
  }

  lemma EncodeAllCons(head: Item, tail: seq<Item>)
    requires SizeAll([head] + tail) < U64_LIMIT
    ensures Fits(head) && SizeAll(tail) < U64_LIMIT
    ensures EncodeAll([head] + tail) == Encode(head) + EncodeAll(tail)
  {
    assert ([head] + tail)[1..] == tail;
  }

  /** Appending an item to a list of items appends its encoding. */
  lemma {:induction false} EncodeAllSnoc(items: seq<Item>, item: Item)
    requires SizeAll(items + [item]) < U64_LIMIT
    ensures SizeAll(items + [item]) == SizeAll(items) + Size(item)
    ensures Fits(item) && EncodeAll(items + [item]) == EncodeAll(items) + Encode(item)
    decreases items
  {
    SizeAllSnoc(items, item);
    if items == [] {
      assert [] + [item] == [item];
      EncodeOne(item);
    } else {
      var head, tail := items[0], items[1..];
      assert items + [item] == [head] + (tail + [item]) && items == [head] + tail;
      EncodeAllCons(head, tail + [item]);
      EncodeAllCons(head, tail);
      EncodeAllSnoc(tail, item);
      JoinAssociates(Encode(head), EncodeAll(tail), Encode(item));
    }
  }

  lemma JoinAssociates(a: Bytes, b: Bytes, c: Bytes)
    ensures a + (b + c) == a + b + c
  {
  }
}
