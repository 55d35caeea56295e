/**
 * Creation of an escrow from the form: the expiry second computed from the clock and the
 * typed number of minutes, the parameters handed to the escrow-initialising operation, and the
 * form's loading flag and notifications.
 */
module EscrowOperations {
  import opened Wrappers
  import JsInt
  import TokenPrices

  /**
   * `Math.floor(Date.now() / 1000) + parseInt(expirationTime) * 60`; `None` stands for NaN,
   * which is what a text without leading digits produces.
   */
  function ExpTime(nowMs: nat, expirationText: string): (r: Option<int>)
    ensures r.Some? <==> JsInt.ParseInt(expirationText).Some?
  {
    match JsInt.ParseInt(expirationText)
    case None => None
    case Some(minutes) => Some(nowMs / 1000 + minutes * 60)
  }

  /**
   * For a typed whole number of minutes the expiry is that many minutes after the current
   * second, and for a positive number it lies strictly after the current time.
   */
  lemma ExpTimeOfMinutes(nowMs: nat, minutes: nat)
    ensures var r := ExpTime(nowMs, JsInt.DecimalString(minutes));
      && r.Some?
      && (r.value - minutes * 60) * 1000 <= nowMs < (r.value - minutes * 60 + 1) * 1000
      && (minutes > 0 ==> r.value * 1000 > nowMs)
  {
    JsInt.ParseDecimal(minutes, "");
    assert JsInt.DecimalString(minutes) + "" == JsInt.DecimalString(minutes);
  }

  /** An empty field, or one starting with neither a digit, a sign nor white space, gives no expiry (NaN). */
  lemma ExpTimeWithoutDigits(nowMs: nat, expirationText: string)
    requires expirationText == [] || (!JsInt.IsDigit(expirationText[0]) && !JsInt.IsSpace(expirationText[0])
                                      && expirationText[0] != '-' && expirationText[0] != '+')
    ensures ExpTime(nowMs, expirationText).None?
  {
    JsInt.ParseIntNoDigits(expirationText);
  }

  /** The params object; `token` is present only for the token variant. */
  datatype InitParams = InitParams(amount: string, expirationTime: Option<int>, secret: string,
                                   token: Option<TokenPrices.Token>)

  /** `params`: amount and secret passed through as typed, and USDC as the token unless SOL. */
  function Params(isSol: bool, amount: string, secret: string, expTime: Option<int>): (p: InitParams)
    ensures p.amount == amount && p.secret == secret && p.expirationTime == expTime
    ensures p.token.None? <==> isSol
    ensures p.token.Some? ==> p.token.value == TokenPrices.TOKEN_LIST[1] && p.token.value.symbol == "USDC"
  {
    InitParams(amount, expTime, secret, if isSol then None else Some(TokenPrices.TOKEN_LIST[1]))
  }

  /** What the initialising call does: resolve with a signature, throw an `Error`, or throw anything else. */
  datatype InitOutcome = Signed(signature: string) | ThrewError(message: string) | ThrewOther

  datatype Toast = Success(text: string) | Failure(text: string)

  /** `s.slice(0, 8)`. */
  function FirstEight(s: string): (r: string)
    ensures |r| == if |s| < 8 then |s| else 8
    ensures r <= s
  {
    if |s| < 8 then s else s[..8]
  }

  /** `s.slice(-8)`. */
  function LastEight(s: string): (r: string)
    ensures |r| == if |s| < 8 then |s| else 8
    ensures exists k :: 0 <= k <= |s| && s[k..] == r
  {
    if |s| < 8 then (assert s[0..] == s; s) else s[|s| - 8..]
  }

  /** The notification for an outcome. */
  function ToastFor(outcome: InitOutcome): (t: Toast)
    ensures t.Success? <==> outcome.Signed?
  {
    match outcome
    case Signed(signature) =>
      Success("Transaction successful! Signature: " + FirstEight(signature) + "..." + LastEight(signature))
    case ThrewError(message) => Failure("Failed to initialize escrow: " + message)
    case ThrewOther => Failure("Failed to initialize escrow: Unknown error")
  }

  /** The escrow form's state: the three typed fields, the loading flag, toasts and calls made. */
  class EscrowForm {
    var amount: string
    var secret: string
    var expirationTime: string
    var loading: bool
    var toasts: seq<Toast>
    var calls: seq<InitParams>

    constructor ()
      ensures amount == "" && secret == "" && expirationTime == ""
      ensures !loading && toasts == [] && calls == []
    {
      amount, secret, expirationTime := "", "", "";
      loading := false;
      toasts, calls := [], [];
    }

    /**
     * `handleInitialize`. Without a wallet only "Wallet not connected" is shown and `loading`
     * is untouched. Otherwise exactly one call is made with the computed params, one toast
     * reports its outcome, and `loading` ends false.
     */
    method HandleInitialize(isSol: bool, walletConnected: bool, nowMs: nat, initialize: InitParams -> InitOutcome)
      modifies this
      ensures amount == old(amount) && secret == old(secret) && expirationTime == old(expirationTime)
      ensures !walletConnected ==>
        toasts == old(toasts) + [Failure("Wallet not connected")] && calls == old(calls) && loading == old(loading)
      ensures walletConnected ==>
        var p := Params(isSol, amount, secret, ExpTime(nowMs, expirationTime));
        && !loading
        && calls == old(calls) + [p]
        && toasts == old(toasts) + [ToastFor(initialize(p))]
    {
      if !walletConnected {
        toasts := toasts + [Failure("Wallet not connected")];
        return;
      }
      loading := true;
      var expTime := ExpTime(nowMs, expirationTime);
      var params := Params(isSol, amount, secret, expTime);
      calls := calls + [params];
      var outcome := initialize(params);
      toasts := toasts + [ToastFor(outcome)];
      loading := false;
    }
  }
}
