/** Reading the chain's next nonce out of a nonce-too-low message. */
module NonceParsing {
  import opened Words
  import opened Text

  const MARKER := "nonce too low: "

  function ParseDecimal(value: string): Option<u64> {
    if value == "" || !(forall c | c in value :: IsDigit(c)) then None
    else if DecimalValue(value) < U64_LIMIT then Some(DecimalValue(value))
    else None
  }

  /** `address 0x.., tx: N state: M` */
  function ParseArbitrum(details: string): Option<u64> {
    match SplitOnce(details, ", tx: ")
    case None => None
    case Some((address, txAndState)) =>
      match SplitOnce(txAndState, " state: ")
      case None => None
      case Some((tx, state)) =>
        match StripPrefix(address, "address 0x")
        case None => None
        case Some(hex) =>
          if Trim(hex) == "" || ParseDecimal(tx).None? then None else ParseDecimal(state)
  }

  /** `next nonce M, tx nonce N` */
  function ParseGeth(details: string): Option<u64> {
    match StripPrefix(details, "next nonce ")
    case None => None
    case Some(rest) =>
      match SplitOnce(rest, ", tx nonce ")
      case None => None
      case Some((state, tx)) => if ParseDecimal(tx).None? then None else ParseDecimal(state)
  }

  function ParseNonceTooLow(message: string): Option<u64> {
    match SplitLast(message, MARKER)
    case None => None
    case Some((_, rest)) =>
      var details := Trim(rest);
      if ParseArbitrum(details).Some? then ParseArbitrum(details) else ParseGeth(details)
  }

  // ---------- The printers the nodes use ----------

  function ArbitrumDetails(address: string, tx: nat, state: nat): string {
    "address 0x" + address + ", tx: " + (Decimal(tx) + " state: " + Decimal(state))
  }

  function GethDetails(tx: nat, state: nat): string {
    "next nonce " + (Decimal(state) + ", tx nonce " + Decimal(tx))
  }

  /** What an address may be written with; hexadecimal digits are among these. */
  predicate AddressChar(c: char) {
    c != ',' && c != ':' && !IsWhitespace(c)
  }

  // ---------- Round trips ----------

  lemma ParseDecimalInverts(n: nat)
    ensures ParseDecimal(Decimal(n)) == if n < U64_LIMIT then Some(n) else None
  {
    DecimalRoundTrip(n);
    DecimalIsDigits(n);
  }

  lemma NotInDecimal(c: char, n: nat)
    requires !IsDigit(c)
    ensures c !in Decimal(n)
  {
    DecimalIsDigits(n);
  }

  lemma TrimKeeps(s: string)
    requires s != "" && !IsWhitespace(s[0]) && !IsWhitespace(s[|s| - 1])
    ensures Trim(s) == s
  {
  }

  /** No colon of `details` ends a second marker, so the marker written before it is the last one. */
  lemma MarkerIsLast(prefix: string, details: string)
    requires forall q | 0 < q < |details| && details[q] == ':' :: details[q - 1] != 'w'
    ensures SplitLast(prefix + MARKER + details, MARKER) == Some((prefix, details))
  {
    var s := prefix + MARKER + details;
    FindLastIsLast(s, MARKER);
    assert s[|prefix|..|prefix| + |MARKER|] == MARKER;
    ContainsAt(s, MARKER, |prefix|);
    forall i | |prefix| < i ensures !OccursAt(s, MARKER, i) {
      if OccursAt(s, MARKER, i) {
        OccursAtChars(s, MARKER, i);
        assert MARKER[12] == 'w' && MARKER[13] == ':';
        assert s[i + 12] == 'w' && s[i + 13] == ':';
        NoColonAfterW(prefix, details, i + 13);
      }
    }
    assert s[..|prefix|] == prefix && s[|prefix| + |MARKER|..] == details;
  }

  lemma NoColonAfterW(prefix: string, details: string, at: nat)
    requires forall q | 0 < q < |details| && details[q] == ':' :: details[q - 1] != 'w'
    requires |prefix| + 13 < at < |prefix + MARKER + details|
    ensures var s := prefix + MARKER + details; s[at] == ':' ==> s[at - 1] != 'w'
  {
    var s := prefix + MARKER + details;
    assert s[|prefix| + 14] == MARKER[14] == ' ';
    if at > |prefix| + 15 {
      var q := at - |prefix| - 15;
      assert s[at] == details[q] && s[at - 1] == details[q - 1];
    }
  }

  lemma ArbitrumColons(address: string, tx: nat, state: nat, q: nat)
    requires forall c | c in address :: AddressChar(c)
    requires 0 < q < |ArbitrumDetails(address, tx, state)| && ArbitrumDetails(address, tx, state)[q] == ':'
    ensures ArbitrumDetails(address, tx, state)[q - 1] != 'w'
  {
    var a, b, c, d := "address 0x" + address, Decimal(tx), " state: ", Decimal(state);
    NotInDecimal(':', tx);
    NotInDecimal(':', state);
    var s := ArbitrumDetails(address, tx, state);
    assert ':' !in a;
    var head, upToState := a + ", tx: ", a + ", tx: " + b;
    assert s == "" + a + (", tx: " + b + c + d) == a + ", tx: " + (b + c + d);
    assert s == head + b + (c + d) == upToState + c + d == upToState + c + d + "";
    MiddleLacks("", a, ", tx: " + b + c + d, q, ':');
    MiddleLacks(head, b, c + d, q, ':');
    MiddleLacks(upToState + c, d, "", q, ':');
    if q < |head| {
      MiddleIs(a, ", tx: ", b + c + d, q);
      MiddleIs(a, ", tx: ", b + c + d, q - 1);
      assert q == |a| + 4;
    } else {
      MiddleIs(upToState, c, d, q);
      MiddleIs(upToState, c, d, q - 1);
      assert q == |upToState| + 6;
    }
  }

  lemma MiddleIs(before: string, part: string, after: string, q: nat)
    requires q < |before + part + after|
    ensures |before| <= q < |before| + |part| ==> (before + part + after)[q] == part[q - |before|]
  {
  }

  lemma MiddleLacks(before: string, part: string, after: string, q: nat, c: char)
    requires q < |before + part + after| && c !in part
    ensures |before| <= q < |before| + |part| ==> (before + part + after)[q] != c
  {
    MiddleIs(before, part, after, q);
  }

  lemma ParseArbitrumInverts(address: string, tx: nat, state: nat)
    requires address != "" && forall c | c in address :: AddressChar(c)
    ensures ParseArbitrum(ArbitrumDetails(address, tx, state)) ==
            if tx < U64_LIMIT && state < U64_LIMIT then Some(state) else None
  {
    var head := "address 0x" + address;
    NotInDecimal(' ', tx);
    SplitOnceAt(head, ", tx: ", Decimal(tx) + " state: " + Decimal(state));
    SplitOnceAt(Decimal(tx), " state: ", Decimal(state));
    assert head[|"address 0x"|..] == address;
    assert address[0] in address && address[|address| - 1] in address;
    TrimKeeps(address);
    ParseDecimalInverts(tx);
    ParseDecimalInverts(state);
  }

  /**
   * Reading back an Arbitrum message, behind any wrapper: the printed state nonce when both numbers
   * fit in 64 bits, and nothing otherwise.
   */
  lemma ArbitrumRoundTrip(prefix: string, address: string, tx: nat, state: nat)
    requires address != "" && forall c | c in address :: AddressChar(c)
    ensures var details := "address 0x" + address + ", tx: " + (Decimal(tx) + " state: " + Decimal(state));
            ParseNonceTooLow(prefix + "nonce too low: " + details) ==
            if tx < U64_LIMIT && state < U64_LIMIT then Some(state) else None
  {
    var details := ArbitrumDetails(address, tx, state);
    forall q | 0 < q < |details| && details[q] == ':' ensures details[q - 1] != 'w' {
      ArbitrumColons(address, tx, state, q);
    }
    MarkerIsLast(prefix, details);
    ArbitrumEnds(address, tx, state);
    TrimKeeps(details);
    ParseArbitrumInverts(address, tx, state);
    assert details[0] == 'a';
    assert ParseGeth(details).None?;
  }

  lemma ArbitrumEnds(address: string, tx: nat, state: nat)
    ensures var s := ArbitrumDetails(address, tx, state);
            s != "" && s[0] == 'a' && !IsWhitespace(s[|s| - 1])
  {
    var s := ArbitrumDetails(address, tx, state);
    DecimalIsDigits(state);
    assert s[|s| - 1] == Decimal(state)[|Decimal(state)| - 1];
    assert s[|s| - 1] in Decimal(state);
  }

  lemma ParseGethInverts(tx: nat, state: nat)
    ensures ParseGeth(GethDetails(tx, state)) == if tx < U64_LIMIT && state < U64_LIMIT then Some(state) else None
  {
    var rest := Decimal(state) + ", tx nonce " + Decimal(tx);
    assert GethDetails(tx, state)[|"next nonce "|..] == rest;
    NotInDecimal(',', state);
    SplitOnceAt(Decimal(state), ", tx nonce ", Decimal(tx));
    ParseDecimalInverts(tx);
    ParseDecimalInverts(state);
  }

  lemma GethHasNoColon(tx: nat, state: nat)
    ensures ':' !in GethDetails(tx, state)
  {
    NotInDecimal(':', tx);
    NotInDecimal(':', state);
  }

  /** The same for a geth message. */
  lemma GethRoundTrip(prefix: string, tx: nat, state: nat)
    ensures var details := "next nonce " + (Decimal(state) + ", tx nonce " + Decimal(tx));
            ParseNonceTooLow(prefix + "nonce too low: " + details) ==
            if tx < U64_LIMIT && state < U64_LIMIT then Some(state) else None
  {
    var details := GethDetails(tx, state);
    GethHasNoColon(tx, state);
    MarkerIsLast(prefix, details);
    DecimalIsDigits(tx);
    assert details[|details| - 1] == Decimal(tx)[|Decimal(tx)| - 1];
    assert details[|details| - 1] in Decimal(tx);
    assert details[0] == 'n';
    TrimKeeps(details);
    FindIsFirst(details, ", tx: ");
    if Contains(details, ", tx: ") {
      ContainsChars(details, ", tx: ", ':');
    }
    ParseGethInverts(tx, state);
  }

  // ---------- Nothing else is read ----------

  lemma SplitOnceJoins(s: string, p: string)
    requires SplitOnce(s, p).Some?
    ensures var (a, b) := SplitOnce(s, p).value; s == a + p + b
  {
    FindIsFirst(s, p);
  }

  lemma SplitLastJoins(s: string, p: string)
    requires SplitLast(s, p).Some?
    ensures var (a, b) := SplitLast(s, p).value; s == a + p + b && (p != "" ==> !Contains(b, p))
  {
    FindLastIsLast(s, p);
    var i := FindLast(s, p).value;
    var b := s[i + |p|..];
    if p != "" && Contains(b, p) {
      var k :| 0 <= k <= |b| && OccursAt(b, p, k);
      OccursAtShift(b, p, k, s, i + |p| + k);
    }
  }

  predicate IsNumber(s: string, n: nat) {
    s != "" && (forall c | c in s :: IsDigit(c)) && DecimalValue(s) == n
  }

  lemma ArbitrumMeans(details: string, n: u64) returns (hex: string, tx: string, state: string)
    requires ParseArbitrum(details) == Some(n)
    ensures details == "address 0x" + hex + ", tx: " + (tx + " state: " + state)
    ensures Trim(hex) != "" && IsNumber(state, n) && ParseDecimal(tx).Some?
  {
    SplitOnceJoins(details, ", tx: ");
    var (address, txAndState) := SplitOnce(details, ", tx: ").value;
    SplitOnceJoins(txAndState, " state: ");
    hex := StripPrefix(address, "address 0x").value;
    tx, state := SplitOnce(txAndState, " state: ").value.0, SplitOnce(txAndState, " state: ").value.1;
    assert address == "address 0x" + hex;
  }

  lemma GethMeans(details: string, n: u64) returns (tx: string, state: string)
    requires ParseGeth(details) == Some(n)
    ensures details == "next nonce " + (state + ", tx nonce " + tx)
    ensures IsNumber(state, n) && ParseDecimal(tx).Some?
  {
    var rest := StripPrefix(details, "next nonce ").value;
    SplitOnceJoins(rest, ", tx nonce ");
    state, tx := SplitOnce(rest, ", tx nonce ").value.0, SplitOnce(rest, ", tx nonce ").value.1;
    assert details == "next nonce " + rest;
  }

  /** A nonce is read only out of what follows the last marker, and only in one of the two forms. */
  lemma ParsedMeans(message: string, n: u64) returns (prefix: string, rest: string, hex: string, tx: string, state: string)
    requires ParseNonceTooLow(message) == Some(n)
    ensures message == prefix + "nonce too low: " + rest && !Contains(rest, "nonce too low: ")
    ensures IsNumber(state, n) && ParseDecimal(tx).Some?
    ensures || Trim(rest) == "address 0x" + hex + ", tx: " + (tx + " state: " + state)
            || Trim(rest) == "next nonce " + (state + ", tx nonce " + tx)
  {
    SplitLastJoins(message, MARKER);
    prefix, rest := SplitLast(message, MARKER).value.0, SplitLast(message, MARKER).value.1;
    var details := Trim(rest);
    if ParseArbitrum(details).Some? {
      hex, tx, state := ArbitrumMeans(details, n);
    } else {
      hex := "";
      tx, state := GethMeans(details, n);
    }
  }
}
