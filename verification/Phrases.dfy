/** The phrases that decide what an error proves, spelled out, and the decisions they lead to. */
module Phrases {
  import opened Words
  import opened Text
  import opened Redaction
  import opened Verdicts

  // ---------- The lists, one phrase at a time ----------

  lemma AmbiguousPhrases(m: string)
    ensures ContainsAny(m, AMBIGUOUS_PHRASES) <==>
            || Contains(m, "already known") || Contains(m, "known transaction") || Contains(m, "underpriced")
            || Contains(m, "fee too low") || Contains(m, "timeout") || Contains(m, "connection")
            || Contains(m, "network") || Contains(m, "temporarily") || Contains(m, "nonce too high")
            || Contains(m, "nonce too low") || Contains(m, "decoding response") || Contains(m, "bad gateway")
            || Contains(m, "upstream")
  {
    var p := AMBIGUOUS_PHRASES;
    assert |p| == 13;
    assert ContainsAny(m, p) <==>
           || Contains(m, p[0]) || Contains(m, p[1]) || Contains(m, p[2]) || Contains(m, p[3]) || Contains(m, p[4])
           || Contains(m, p[5]) || Contains(m, p[6]) || Contains(m, p[7]) || Contains(m, p[8]) || Contains(m, p[9])
           || Contains(m, p[10]) || Contains(m, p[11]) || Contains(m, p[12]);
  }

  lemma DefinitivePhrases(m: string)
    ensures ContainsAny(m, DEFINITIVE_PHRASES) <==>
            || Contains(m, "execution reverted") || Contains(m, "insufficient funds for gas")
            || Contains(m, "insufficient funds") || Contains(m, "exceeds block gas limit")
            || Contains(m, "exceed block gas limit") || Contains(m, "intrinsic gas too high")
            || Contains(m, "invalid sender") || Contains(m, "tx type not supported")
            || Contains(m, "transaction type not supported")
  {
    var p := DEFINITIVE_PHRASES;
    assert |p| == 9;
    assert ContainsAny(m, p) <==>
           || Contains(m, p[0]) || Contains(m, p[1]) || Contains(m, p[2]) || Contains(m, p[3]) || Contains(m, p[4])
           || Contains(m, p[5]) || Contains(m, p[6]) || Contains(m, p[7]) || Contains(m, p[8]);
  }

  lemma PrecheckPhrases(m: string)
    ensures ContainsAny(m, PRECHECK_PHRASES) <==>
            Contains(m, "intrinsic gas too low") || Contains(m, "exceeds the configured cap")
  {
    var p := PRECHECK_PHRASES;
    assert |p| == 2;
    assert ContainsAny(m, p) <==> Contains(m, p[0]) || Contains(m, p[1]);
  }

  lemma FeeFloorPhrases(m: string)
    ensures ContainsAny(m, FEE_FLOOR_REJECTION_PHRASES) <==>
            || Contains(m, "max fee per gas less than block base fee")
            || Contains(m, "fee cap less than block base fee")
            || Contains(m, "max fee per gas too low") || Contains(m, "gas price below minimum")
  {
    var p := FEE_FLOOR_REJECTION_PHRASES;
    assert |p| == 4;
    assert ContainsAny(m, p) <==> Contains(m, p[0]) || Contains(m, p[1]) || Contains(m, p[2]) || Contains(m, p[3]);
  }

  lemma ForwarderPhrases(m: string)
    ensures ContainsAny(m, FORWARDER_TRANSPORT_PHRASES) <==>
            || Contains(m, "context deadline exceeded") || Contains(m, "client.timeout exceeded")
            || Contains(m, "dial tcp") || Contains(m, "connection refused") || Contains(m, "i/o timeout")
            || Contains(m, "failsafe timeout policy exceeded") || Contains(m, "upstreams exhausted")
  {
    var p := FORWARDER_TRANSPORT_PHRASES;
    assert |p| == 7;
    assert ContainsAny(m, p) <==>
           || Contains(m, p[0]) || Contains(m, p[1]) || Contains(m, p[2]) || Contains(m, p[3]) || Contains(m, p[4])
           || Contains(m, p[5]) || Contains(m, p[6]);
  }

  lemma NodeRejectionPhrases(m: string)
    ensures ContainsAny(m, NODE_REJECTION_PHRASES) <==>
            || Contains(m, "gas required exceeds allowance") || Contains(m, "insufficient funds")
            || Contains(m, "nonce") || Contains(m, "already known") || Contains(m, "already-known")
            || Contains(m, "known transaction")
  {
    var p := NODE_REJECTION_PHRASES;
    assert |p| == 6;
    assert ContainsAny(m, p) <==>
           || Contains(m, p[0]) || Contains(m, p[1]) || Contains(m, p[2]) || Contains(m, p[3]) || Contains(m, p[4])
           || Contains(m, p[5]);
  }

  // ---------- The prefix of an RPC error says nothing ----------

  /** A phrase that cannot start inside the prefix of an RPC error: its first two characters tell. */
  predicate Plain(p: string) {
    && |p| >= 2 && p[0] != 'r' && p[0] != 'o' && p[0] != ':' && p[0] != ' '
    && !(p[0] == 'p' && p[1] == 'c') && !(p[0] == 'c' && p[1] == ' ') && !(p[0] == 'e' && p[1] == 'r')
  }

  lemma PrefixSaysNothing(text: string, p: string)
    requires Plain(p)
    ensures Contains(Lower("RPC error: " + text), p) <==> Contains(Lower(text), p)
  {
    var lower, whole := Lower(text), "rpc error: " + Lower(text);
    LowerConcat("RPC error: ", text);
    assert Lower("RPC error: ") == "rpc error: ";
    if Contains(lower, p) {
      ContainsInside("rpc error: ", lower, "", p);
      assert whole + "" == whole;
    }
    if Contains(whole, p) {
      var i :| 0 <= i <= |whole| && OccursAt(whole, p, i);
      StartsPastPrefix(lower, p, i);
      OccursAtShift(whole, p, i, lower, i - 11);
      ContainsAt(lower, p, i - 11);
    }
  }

  lemma StartsPastPrefix(lower: string, p: string, i: nat)
    requires Plain(p) && OccursAt("rpc error: " + lower, p, i)
    ensures 11 <= i
  {
    var whole := "rpc error: " + lower;
    OccursAtChars(whole, p, i);
    assert p[0] == whole[i] && p[1] == whole[i + 1];
  }

  lemma PrefixSaysNoneOf(text: string, needles: seq<string>)
    requires forall k | 0 <= k < |needles| :: Plain(needles[k])
    ensures ContainsAny(Lower("RPC error: " + text), needles) <==> ContainsAny(Lower(text), needles)
  {
    forall k | 0 <= k < |needles|
      ensures Contains(Lower("RPC error: " + text), needles[k]) <==> Contains(Lower(text), needles[k])
    {
      PrefixSaysNothing(text, needles[k]);
    }
  }

  lemma PhrasesArePlain()
    ensures forall k | 0 <= k < |AMBIGUOUS_PHRASES| :: Plain(AMBIGUOUS_PHRASES[k])
    ensures forall k | 0 <= k < |DEFINITIVE_PHRASES| :: Plain(DEFINITIVE_PHRASES[k])
    ensures forall k | 0 <= k < |PRECHECK_PHRASES| :: Plain(PRECHECK_PHRASES[k])
    ensures forall k | 0 <= k < |FEE_FLOOR_REJECTION_PHRASES| :: Plain(FEE_FLOOR_REJECTION_PHRASES[k])
    ensures forall k | 0 <= k < |FORWARDER_TRANSPORT_PHRASES| :: Plain(FORWARDER_TRANSPORT_PHRASES[k])
  {
  }

  lemma RpcTextDecides(text: string)
    ensures DefinitiveText(Lower("RPC error: " + text)) <==> DefinitiveText(Lower(text))
  {
    PhrasesArePlain();
    PrefixSaysNoneOf(text, AMBIGUOUS_PHRASES);
    PrefixSaysNoneOf(text, DEFINITIVE_PHRASES);
    PrefixSaysNoneOf(text, PRECHECK_PHRASES);
    PrefixSaysNoneOf(text, FEE_FLOOR_REJECTION_PHRASES);
    PrefixSaysNoneOf(text, FORWARDER_TRANSPORT_PHRASES);
    PrefixSaysNothing(text, "post \"");
  }

  // ---------- Whether the nonce may be reused ----------

  /**
   * An RPC error whose text, in any letter case, holds one of thirteen phrases never frees its nonce.
   * Any other frees it exactly when it holds one of nine phrases, or one of six that a pre-check
   * writes and no sign that a forwarder wrote it.
   */
  lemma RpcErrorDefinitiveIff(text: string)
    ensures var m := Lower(text);
            IsDefinitive(RpcError(text)) <==>
            && !(|| Contains(m, "already known") || Contains(m, "known transaction") || Contains(m, "underpriced")
                 || Contains(m, "fee too low") || Contains(m, "timeout") || Contains(m, "connection")
                 || Contains(m, "network") || Contains(m, "temporarily") || Contains(m, "nonce too high")
                 || Contains(m, "nonce too low") || Contains(m, "decoding response") || Contains(m, "bad gateway")
                 || Contains(m, "upstream"))
            && (|| Contains(m, "execution reverted") || Contains(m, "insufficient funds for gas")
                || Contains(m, "insufficient funds") || Contains(m, "exceeds block gas limit")
                || Contains(m, "exceed block gas limit") || Contains(m, "intrinsic gas too high")
                || Contains(m, "invalid sender") || Contains(m, "tx type not supported")
                || Contains(m, "transaction type not supported")
                || (&& (|| Contains(m, "intrinsic gas too low") || Contains(m, "exceeds the configured cap")
                        || Contains(m, "max fee per gas less than block base fee")
                        || Contains(m, "fee cap less than block base fee")
                        || Contains(m, "max fee per gas too low") || Contains(m, "gas price below minimum"))
                    && !(|| Contains(m, "post \"") || Contains(m, "context deadline exceeded")
                         || Contains(m, "client.timeout exceeded") || Contains(m, "dial tcp")
                         || Contains(m, "connection refused") || Contains(m, "i/o timeout")
                         || Contains(m, "failsafe timeout policy exceeded") || Contains(m, "upstreams exhausted"))))
  {
    RpcTextDecides(text);
    DefinitiveTextIs(Lower(text));
  }

  lemma DefinitiveTextIs(m: string)
    ensures DefinitiveText(m) <==>
            && !(|| Contains(m, "already known") || Contains(m, "known transaction") || Contains(m, "underpriced")
                 || Contains(m, "fee too low") || Contains(m, "timeout") || Contains(m, "connection")
                 || Contains(m, "network") || Contains(m, "temporarily") || Contains(m, "nonce too high")
                 || Contains(m, "nonce too low") || Contains(m, "decoding response") || Contains(m, "bad gateway")
                 || Contains(m, "upstream"))
            && (|| Contains(m, "execution reverted") || Contains(m, "insufficient funds for gas")
                || Contains(m, "insufficient funds") || Contains(m, "exceeds block gas limit")
                || Contains(m, "exceed block gas limit") || Contains(m, "intrinsic gas too high")
                || Contains(m, "invalid sender") || Contains(m, "tx type not supported")
                || Contains(m, "transaction type not supported")
                || (&& (|| Contains(m, "intrinsic gas too low") || Contains(m, "exceeds the configured cap")
                        || Contains(m, "max fee per gas less than block base fee")
                        || Contains(m, "fee cap less than block base fee")
                        || Contains(m, "max fee per gas too low") || Contains(m, "gas price below minimum"))
                    && !(|| Contains(m, "post \"") || Contains(m, "context deadline exceeded")
                         || Contains(m, "client.timeout exceeded") || Contains(m, "dial tcp")
                         || Contains(m, "connection refused") || Contains(m, "i/o timeout")
                         || Contains(m, "failsafe timeout policy exceeded") || Contains(m, "upstreams exhausted"))))
  {
    AmbiguousPhrases(m);
    DefinitivePhrases(m);
    PrecheckPhrases(m);
    FeeFloorPhrases(m);
    ForwarderPhrases(m);
  }

  /** What each error proves: five kinds never free the nonce, three always do, the rest go by their text. */
  lemma DefinitiveByKind(e: WalletError)
    ensures e.AmbiguousBroadcastFailure? || e.Timeout? || e.NetworkError? || e.HttpError? || e.TransactionUnderpriced?
            ==> !IsDefinitive(e)
    ensures e.InsufficientFunds? || e.GasLimitExceeded? || e.AllEndpointsRejectedDefinitively? ==> IsDefinitive(e)
    ensures e.RpcError? || e.InvalidPrivateKey? || e.InvalidAddress? || e.SigningError? || e.NonceError?
            || e.EncodingError? || e.HexError? || e.JsonError? || e.InvalidChainId? || e.NonceTooLow?
            || e.SendTimeout? || e.InvalidConfig? || e.NoCredentialsDir? || e.CredentialError?
            ==> (IsDefinitive(e) <==> IsDefinitive(RpcError(Display(e))))
  {
    OtherKindsGoByText(e);
    var text := Display(e);
    RpcTextDecides(text);
    RpcErrorGoesByText(text);
  }

  lemma OtherKindsGoByText(e: WalletError)
    ensures e.RpcError? || e.InvalidPrivateKey? || e.InvalidAddress? || e.SigningError? || e.NonceError?
            || e.EncodingError? || e.HexError? || e.JsonError? || e.InvalidChainId? || e.NonceTooLow?
            || e.SendTimeout? || e.InvalidConfig? || e.NoCredentialsDir? || e.CredentialError?
            ==> (IsDefinitive(e) <==> DefinitiveText(Lower(Display(e))))
  {
  }

  /** A failed broadcast frees the nonce exactly when some endpoint answered and every answer would. */
  lemma AggregateDefinitiveByTexts(endpoints: seq<EndpointVerdict>, json: string)
    ensures IsDefinitive(BroadcastFailed(endpoints, json)) <==>
            && endpoints != []
            && forall v | v in endpoints :: v.class_ == Rejection && IsDefinitive(RpcError(v.error))
  {
    AggregateDefinitiveIff(endpoints, json);
    forall v | v in endpoints
      ensures DefinitiveVerdict(v) <==> v.class_ == Rejection && IsDefinitive(RpcError(v.error))
    {
      RpcErrorGoesByText(v.error);
    }
  }

  lemma RpcErrorGoesByText(text: string)
    ensures IsDefinitive(RpcError(text)) <==> DefinitiveText(Lower(Display(RpcError(text))))
  {
  }

  // ---------- Whether an endpoint took part at all ----------

  /**
   * An endpoint counts as unreachable when the error is a network error or a timeout, or when the text
   * of an RPC error is a forwarder's: it holds one of seven phrases or starts, perhaps after an error
   * code, with a quoted request. Ten phrases that only a node writes outrank all of that.
   */
  lemma ClassOfIff(e: WalletError)
    ensures e.NetworkError? || e.Timeout? || e.SendTimeout? ==> ClassOf(e) == Transport
    ensures !e.NetworkError? && !e.Timeout? && !e.SendTimeout? && !e.RpcError? ==> ClassOf(e) == Rejection
    ensures e.RpcError? ==>
              var m := Lower(e.text);
              (ClassOf(e) == Transport <==>
               && !(|| Contains(m, "gas required exceeds allowance") || Contains(m, "insufficient funds")
                    || Contains(m, "nonce") || Contains(m, "already known") || Contains(m, "already-known")
                    || Contains(m, "known transaction") || Contains(m, "max fee per gas less than block base fee")
                    || Contains(m, "fee cap less than block base fee") || Contains(m, "max fee per gas too low")
                    || Contains(m, "gas price below minimum"))
               && (|| Contains(m, "context deadline exceeded") || Contains(m, "client.timeout exceeded")
                   || Contains(m, "dial tcp") || Contains(m, "connection refused") || Contains(m, "i/o timeout")
                   || Contains(m, "failsafe timeout policy exceeded") || Contains(m, "upstreams exhausted")
                   || "post \"" <= m
                   || ("rpc error " <= m && FirstColonQuotes(m))))
  {
    if e.RpcError? {
      var m := Lower(e.text);
      NodeRejectionPhrases(m);
      FeeFloorPhrases(m);
      ForwarderPhrases(m);
      BodyQuotesIff(m);
    }
  }

  /** Past the tenth character, the first colon that a space follows is followed by a quoted request. */
  ghost predicate FirstColonQuotes(m: string) {
    exists i | 10 <= i <= |m| :: OccursAt(m, ": post \"", i) && forall j | 10 <= j < i :: !OccursAt(m, ": ", j)
  }

  lemma BodyQuotesIff(m: string)
    ensures var body := match StripPrefix(m, "rpc error ")
                        case None => m
                        case Some(rest) => (match SplitOnce(rest, ": ") case None => m case Some((_, b)) => b);
            "post \"" <= body <==> "post \"" <= m || ("rpc error " <= m && FirstColonQuotes(m))
  {
    if "rpc error " <= m {
      assert m[0] == 'r';
      var rest := m[10..];
      FindIsFirst(rest, ": ");
      SplitQuotesIff(m, rest);
    }
  }

  lemma SplitQuotesIff(m: string, rest: string)
    requires 10 <= |m| && rest == m[10..]
    ensures FirstColonQuotes(m) <==>
            Find(rest, ": ").Some? && "post \"" <= rest[Find(rest, ": ").value + 2..]
  {
    FindIsFirst(rest, ": ");
    assert forall j | 0 <= j <= |rest| :: OccursAt(rest, ": ", j) <==> OccursAt(m, ": ", j + 10) by {
      forall j | 0 <= j <= |rest| ensures OccursAt(rest, ": ", j) <==> OccursAt(m, ": ", j + 10) {
        if j + 2 <= |rest| {
          assert rest[j..j + 2] == m[j + 10..j + 12];
        }
      }
    }
    if FirstColonQuotes(m) {
      var i :| 10 <= i <= |m| && OccursAt(m, ": post \"", i) && forall j | 10 <= j < i :: !OccursAt(m, ": ", j);
      QuoteStarts(m, i);
      assert OccursAt(rest, ": ", i - 10);
      ContainsAt(rest, ": ", i - 10);
      assert Find(rest, ": ").value == i - 10;
      assert rest[i - 8..] == m[i + 2..];
    }
    if Find(rest, ": ").Some? {
      var i := Find(rest, ": ").value + 10;
      assert OccursAt(m, ": ", i);
      assert rest[i - 8..] == m[i + 2..];
      QuoteStarts(m, i);
      assert forall j | 10 <= j < i :: !OccursAt(m, ": ", j) by {
        forall j | 10 <= j < i ensures !OccursAt(m, ": ", j) {
          assert !OccursAt(rest, ": ", j - 10);
        }
      }
    }
  }

  lemma QuoteStarts(m: string, i: nat)
    requires i <= |m|
    ensures OccursAt(m, ": post \"", i) <==> OccursAt(m, ": ", i) && "post \"" <= m[i + 2..]
  {
    var q := ": post \"";
    assert q[..2] == ": " && q[2..] == "post \"";
    if OccursAt(m, q, i) {
      assert m[i..i + 2] == m[i..i + 8][..2];
      assert m[i + 2..][..6] == m[i..i + 8][2..];
    }
    if OccursAt(m, ": ", i) && "post \"" <= m[i + 2..] {
      assert m[i..i + 8] == m[i..i + 2] + m[i + 2..][..6];
    }
  }

  // ---------- One endpoint's verdict ----------

  /** An endpoint's verdict frees the nonce exactly when it took part and its redacted text would. */
  lemma VerdictDefinitiveIff(url: string, e: WalletError, elapsedMs: nat)
    ensures VerdictOf(url, e, elapsedMs).class_ == ClassOf(e)
    ensures DefinitiveVerdict(VerdictOf(url, e, elapsedMs)) <==>
            ClassOf(e) == Rejection && IsDefinitive(RpcError(Redact(Display(e))))
  {
  }

  /** A single error asks for the pending nonce when its text says too low, for the latest when only too high. */
  lemma SingleSyncIff(e: WalletError)
    requires !e.BroadcastFailed?
    ensures NonceSyncBlock(e) == Some(Pending) <==> Contains(Lower(Display(e)), "nonce too low")
    ensures NonceSyncBlock(e) == Some(Latest) <==>
            !Contains(Lower(Display(e)), "nonce too low") && Contains(Lower(Display(e)), "nonce too high")
  {
  }

  /** For an RPC error the text alone decides that. */
  lemma RpcSyncIff(text: string)
    ensures NonceSyncBlock(RpcError(text)) == Some(Pending) <==> Contains(Lower(text), "nonce too low")
    ensures NonceSyncBlock(RpcError(text)) == Some(Latest) <==>
            !Contains(Lower(text), "nonce too low") && Contains(Lower(text), "nonce too high")
  {
    PrefixSaysNothing(text, "nonce too low");
    PrefixSaysNothing(text, "nonce too high");
  }
}
