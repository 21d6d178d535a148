/** Wallet errors, the verdict kept for each broadcast endpoint, and what may be concluded from them. */
module Verdicts {
  import opened Words
  import opened Text
  import opened Redaction

  datatype FailureClass = Transport | Rejection

  datatype EndpointVerdict = EndpointVerdict(host: string, error: string, elapsedMs: nat, class_: FailureClass)

  /** Errors whose text comes from another library carry that text. */
  datatype WalletError =
    | BroadcastFailed(endpoints: seq<EndpointVerdict>, json: string)
    | InvalidPrivateKey(text: string)
    | InvalidAddress(text: string)
    | SigningError(text: string)
    | RpcError(text: string)
    | NonceError(text: string)
    | EncodingError(text: string)
    | NetworkError(text: string)
    | HexError(text: string)
    | JsonError(text: string)
    | HttpError(text: string)
    | InvalidChainId(id: u64)
    | NonceTooLow(expected: u64, got: u64)
    | TransactionUnderpriced
    | InsufficientFunds
    | GasLimitExceeded
    | SendTimeout(elapsedMs: u64)
    | Timeout
    | AllEndpointsRejectedDefinitively(text: string)
    | AmbiguousBroadcastFailure(text: string)
    | InvalidConfig(text: string)
    | NoCredentialsDir
    | CredentialError(text: string)

  function Display(e: WalletError): string {
    match e
    case BroadcastFailed(_, json) => "All broadcast endpoints failed: " + json
    case InvalidPrivateKey(text) => "Invalid private key: " + text
    case InvalidAddress(text) => "Invalid address: " + text
    case SigningError(text) => "Signing error: " + text
    case RpcError(text) => "RPC error: " + text
    case NonceError(text) => "Nonce error: " + text
    case EncodingError(text) => "Transaction encoding error: " + text
    case NetworkError(text) => "Network error: " + text
    case HexError(text) => "Hex decoding error: " + text
    case JsonError(text) => "JSON error: " + text
    case HttpError(text) => "HTTP error: " + text
    case InvalidChainId(id) => "Invalid chain ID: " + Decimal(id)
    case NonceTooLow(expected, got) => "Nonce too low: expected " + Decimal(expected) + ", got " + Decimal(got)
    case TransactionUnderpriced => "Transaction underpriced"
    case InsufficientFunds => "Insufficient funds"
    case GasLimitExceeded => "Gas limit exceeded"
    case SendTimeout(elapsedMs) => "timeout after " + Decimal(elapsedMs) + " ms"
    case Timeout => "Transaction timeout"
    case AllEndpointsRejectedDefinitively(text) => "All endpoints rejected definitively: " + text
    case AmbiguousBroadcastFailure(text) => "Broadcast failed ambiguously: " + text
    case InvalidConfig(text) => "Invalid wallet configuration: " + text
    case NoCredentialsDir => "CREDENTIALS_DIRECTORY not set (not running under systemd credential delivery)"
    case CredentialError(text) => "Credential read error: " + text
  }

  predicate ContainsAny(s: string, needles: seq<string>) {
    exists k | 0 <= k < |needles| :: Contains(s, needles[k])
  }

  const FORWARDER_TRANSPORT_PHRASES: seq<string> := [
    "context deadline exceeded", "client.timeout exceeded", "dial tcp", "connection refused", "i/o timeout",
    "failsafe timeout policy exceeded", "upstreams exhausted"]

  const FEE_FLOOR_REJECTION_PHRASES: seq<string> := [
    "max fee per gas less than block base fee", "fee cap less than block base fee", "max fee per gas too low",
    "gas price below minimum"]

  const NODE_REJECTION_PHRASES: seq<string> := [
    "gas required exceeds allowance", "insufficient funds", "nonce", "already known", "already-known",
    "known transaction"]

  const AMBIGUOUS_PHRASES: seq<string> := [
    "already known", "known transaction", "underpriced", "fee too low", "timeout", "connection", "network",
    "temporarily", "nonce too high", "nonce too low", "decoding response", "bad gateway", "upstream"]

  const DEFINITIVE_PHRASES: seq<string> := [
    "execution reverted", "insufficient funds for gas", "insufficient funds", "exceeds block gas limit",
    "exceed block gas limit", "intrinsic gas too high", "invalid sender", "tx type not supported",
    "transaction type not supported"]

  const PRECHECK_PHRASES: seq<string> := ["intrinsic gas too low", "exceeds the configured cap"]

  // ---------- One endpoint's verdict ----------

  /** A node-side rejection outranks the forwarder phrases around it. */
  predicate IsForwarderTransportError(message: string) {
    var lower := Lower(message);
    if ContainsAny(lower, NODE_REJECTION_PHRASES) || ContainsAny(lower, FEE_FLOOR_REJECTION_PHRASES) then false
    else
      var body := match StripPrefix(lower, "rpc error ")
                  case None => lower
                  case Some(rest) => (match SplitOnce(rest, ": ") case None => lower case Some((_, b)) => b);
      "post \"" <= body || ContainsAny(lower, FORWARDER_TRANSPORT_PHRASES)
  }

  function ClassOf(e: WalletError): FailureClass {
    if e.NetworkError? || e.Timeout? || e.SendTimeout? then Transport
    else if e.RpcError? && IsForwarderTransportError(e.text) then Transport
    else Rejection
  }

  function VerdictOf(url: string, e: WalletError, elapsedMs: nat): EndpointVerdict {
    EndpointVerdict(EndpointHost(url), Redact(Display(e)), elapsedMs, ClassOf(e))
  }

  // ---------- Whether the nonce may be reused ----------

  predicate MatchesFeeOrGasPrecheck(lower: string) {
    && !Contains(lower, "post \"")
    && !ContainsAny(lower, FORWARDER_TRANSPORT_PHRASES)
    && (ContainsAny(lower, PRECHECK_PHRASES) || ContainsAny(lower, FEE_FLOOR_REJECTION_PHRASES))
  }

  /** A message that proves the node's pre-check refused the bytes. */
  predicate DefinitiveText(lower: string) {
    && !ContainsAny(lower, AMBIGUOUS_PHRASES)
    && (ContainsAny(lower, DEFINITIVE_PHRASES) || MatchesFeeOrGasPrecheck(lower))
  }

  predicate DefinitiveVerdict(v: EndpointVerdict) {
    v.class_ == Rejection && DefinitiveText(Lower(Display(RpcError(v.error))))
  }

  predicate IsDefinitive(e: WalletError) {
    match e
    case InsufficientFunds => true
    case GasLimitExceeded => true
    case AllEndpointsRejectedDefinitively(_) => true
    case BroadcastFailed(endpoints, _) => endpoints != [] && forall v | v in endpoints :: DefinitiveVerdict(v)
    case AmbiguousBroadcastFailure(_) => false
    case Timeout => false
    case NetworkError(_) => false
    case HttpError(_) => false
    case TransactionUnderpriced => false
    case _ => DefinitiveText(Lower(Display(e)))
  }

  // ---------- Which chain state to resync from ----------

  datatype BlockTag = Pending | Latest

  function RejectionTexts(endpoints: seq<EndpointVerdict>): seq<string> {
    if endpoints == [] then []
    else (if endpoints[0].class_ == Rejection then [endpoints[0].error] else []) + RejectionTexts(endpoints[1..])
  }

  const TOO_LOW := "nonce too low"
  const TOO_HIGH := "nonce too high"

  function SyncText(e: WalletError): string {
    Lower(if e.BroadcastFailed? then Join(RejectionTexts(e.endpoints), "\n") else Display(e))
  }

  function NonceSyncBlock(e: WalletError): Option<BlockTag> {
    if Contains(SyncText(e), TOO_LOW) then Some(Pending)
    else if Contains(SyncText(e), TOO_HIGH) then Some(Latest)
    else None
  }

  // ---------- Results ----------

  /** No verdict text carries a URL. */
  lemma VerdictHidesUrls(url: string, e: WalletError, elapsedMs: nat)
    ensures forall p | p in SCHEMES :: !Contains(Lower(VerdictOf(url, e, elapsedMs).error), p)
  {
    RedactedHasNoScheme(Display(e));
  }

  /** Some rejecting endpoint's own text says `p`. */
  ghost predicate SomeRejectionSays(endpoints: seq<EndpointVerdict>, p: string) {
    exists v | v in endpoints :: v.class_ == Rejection && Contains(Lower(v.error), p)
  }

  lemma {:induction false} RejectionTextsAre(endpoints: seq<EndpointVerdict>)
    ensures forall text :: text in RejectionTexts(endpoints) <==>
                           exists v | v in endpoints :: v.class_ == Rejection && v.error == text
    decreases |endpoints|
  {
    if endpoints != [] {
      RejectionTextsAre(endpoints[1..]);
      forall text ensures text in RejectionTexts(endpoints) <==>
                          exists v | v in endpoints :: v.class_ == Rejection && v.error == text
      {
        if v :| v in endpoints && v.class_ == Rejection && v.error == text {
          assert v == endpoints[0] || v in endpoints[1..];
        }
      }
    }
  }

  /** The joined text of an aggregate says `p` exactly when one rejecting endpoint does: no match spans the join. */
  lemma JoinedTextSays(e: WalletError, p: string)
    requires e.BroadcastFailed? && p != "" && '\n' !in p
    ensures Contains(SyncText(e), p) <==> SomeRejectionSays(e.endpoints, p)
  {
    var texts := RejectionTexts(e.endpoints);
    var lowered := seq(|texts|, i requires 0 <= i < |texts| => Lower(texts[i]));
    LowerJoined(texts, lowered, '\n');
    ContainsJoined(lowered, '\n', p);
    RejectionTextsAre(e.endpoints);
    if i :| 0 <= i < |lowered| && Contains(lowered[i], p) {
      assert texts[i] in texts;
    }
    if v :| v in e.endpoints && v.class_ == Rejection && Contains(Lower(v.error), p) {
      assert v.error in texts;
      var i :| 0 <= i < |texts| && texts[i] == v.error;
      assert Contains(lowered[i], p);
    }
  }

  /** An aggregate asks for the pending nonce when any rejection says too low, and for the latest one otherwise. */
  lemma AggregateSyncIff(e: WalletError)
    requires e.BroadcastFailed?
    ensures NonceSyncBlock(e) == Some(Pending) <==> SomeRejectionSays(e.endpoints, TOO_LOW)
    ensures NonceSyncBlock(e) == Some(Latest) <==>
            !SomeRejectionSays(e.endpoints, TOO_LOW) && SomeRejectionSays(e.endpoints, TOO_HIGH)
  {
    JoinedTextSays(e, TOO_LOW);
    JoinedTextSays(e, TOO_HIGH);
  }

  lemma AggregateDefinitiveIff(endpoints: seq<EndpointVerdict>, json: string)
    ensures IsDefinitive(BroadcastFailed(endpoints, json)) <==>
            endpoints != [] && forall v | v in endpoints :: DefinitiveVerdict(v)
  {
  }

  /** The order in which endpoints failed changes neither conclusion. */
  lemma AggregateIgnoresOrder(e: WalletError, e': WalletError)
    requires e.BroadcastFailed? && e'.BroadcastFailed?
    requires multiset(e.endpoints) == multiset(e'.endpoints)
    ensures NonceSyncBlock(e) == NonceSyncBlock(e') && IsDefinitive(e) == IsDefinitive(e')
  {
    assert forall v :: v in e.endpoints <==> v in multiset(e.endpoints);
    assert forall v :: v in e'.endpoints <==> v in multiset(e'.endpoints);
    assert e.endpoints == [] <==> e'.endpoints == [] by {
      assert |e.endpoints| == |multiset(e.endpoints)| && |e'.endpoints| == |multiset(e'.endpoints)|;
    }
    AggregateSyncIff(e);
    AggregateSyncIff(e');
  }

  lemma DefinitiveTextHasNoDrift(lower: string)
    requires DefinitiveText(lower)
    ensures !Contains(lower, TOO_LOW) && !Contains(lower, TOO_HIGH)
  {
    assert AMBIGUOUS_PHRASES[8] == TOO_HIGH && AMBIGUOUS_PHRASES[9] == TOO_LOW;
  }

  lemma DefinitiveVerdictHasNoDrift(v: EndpointVerdict, p: string)
    requires DefinitiveVerdict(v) && (p == TOO_LOW || p == TOO_HIGH)
    ensures !Contains(Lower(v.error), p)
  {
    DefinitiveTextHasNoDrift(Lower(Display(RpcError(v.error))));
    LowerConcat("RPC error: ", v.error);
    assert Lower("RPC error: ") + Lower(v.error) + "" == Lower(Display(RpcError(v.error)));
    if Contains(Lower(v.error), p) {
      ContainsInside(Lower("RPC error: "), Lower(v.error), "", p);
    }
  }

  /** Neither drift is mentioned by a text without a `w` and an `h`. */
  lemma FixedText(text: string, lower: string)
    requires |lower| == |text| && forall k | 0 <= k < |text| :: LowerChar(text[k]) == lower[k]
    requires 'w' !in lower && 'h' !in lower
    ensures !Contains(Lower(text), TOO_LOW) && !Contains(Lower(text), TOO_HIGH)
  {
    assert Lower(text) == lower;
    assert 'w' == TOO_LOW[12] && 'h' == TOO_HIGH[10];
    if Contains(lower, TOO_LOW) {
      ContainsChars(lower, TOO_LOW, 'w');
    }
    if Contains(lower, TOO_HIGH) {
      ContainsChars(lower, TOO_HIGH, 'h');
    }
  }

  lemma FixedTextsHaveNoDrift(e: WalletError)
    requires e.InsufficientFunds? || e.GasLimitExceeded?
    ensures NonceSyncBlock(e).None?
  {
    if e.InsufficientFunds? {
      FixedText("Insufficient funds", "insufficient funds");
    } else {
      FixedText("Gas limit exceeded", "gas limit exceeded");
    }
  }

  /**
   * A definitive rejection asks for a nonce resync in exactly one case: the variant that is
   * definitive whatever its text says, with a text that mentions nonce drift. In particular no
   * single RPC error and no broadcast aggregate is both.
   */
  lemma DefinitiveSyncIff(e: WalletError)
    ensures IsDefinitive(e) && NonceSyncBlock(e).Some? <==>
            && e.AllEndpointsRejectedDefinitively?
            && (Contains(Lower(Display(e)), TOO_LOW) || Contains(Lower(Display(e)), TOO_HIGH))
  {
    if IsDefinitive(e) && !e.AllEndpointsRejectedDefinitively? {
      if e.BroadcastFailed? {
        AggregateSyncIff(e);
        forall v | v in e.endpoints ensures !Contains(Lower(v.error), TOO_LOW) && !Contains(Lower(v.error), TOO_HIGH) {
          DefinitiveVerdictHasNoDrift(v, TOO_LOW);
          DefinitiveVerdictHasNoDrift(v, TOO_HIGH);
        }
      } else if e.InsufficientFunds? || e.GasLimitExceeded? {
        FixedTextsHaveNoDrift(e);
      } else {
        DefinitiveTextHasNoDrift(Lower(Display(e)));
      }
    }
  }

  /** The exceptional case occurs. */
  lemma DefinitiveYetSynced() returns (e: WalletError)
    ensures IsDefinitive(e) && NonceSyncBlock(e) == Some(Pending)
  {
    e := AllEndpointsRejectedDefinitively("nonce too low");
    var prefix := "All endpoints rejected definitively: ";
    LowerConcat(prefix, TOO_LOW);
    assert Lower(TOO_LOW) == TOO_LOW;
    assert OccursAt(TOO_LOW, TOO_LOW, 0);
    ContainsAt(TOO_LOW, TOO_LOW, 0);
    ContainsInside(Lower(prefix), TOO_LOW, "", TOO_LOW);
    assert Lower(prefix) + TOO_LOW + "" == SyncText(e);
  }
}
