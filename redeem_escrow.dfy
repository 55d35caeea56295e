/**
 * Redemption of an escrow from a shared link. The link's `startapp` query value carries
 * `secret__sender__token`; it is split on "__", checked, and turned into one call of the
 * redeem operation with the mint chosen from the token list.
 */
module RedeemEscrow {
  import opened Wrappers
  import TokenPrices

  // ---- `String.prototype.split("__")` and its inverse ----

  predicate SepAt(s: string, i: int)
  {
    0 <= i && i + 2 <= |s| && s[i] == '_' && s[i + 1] == '_'
  }

  predicate HasSep(s: string)
  {
    exists i :: 0 <= i < |s| && SepAt(s, i)
  }

  /** The first occurrence of "__" at or after `from`. */
  function FindSep(s: string, from: nat): (r: Option<nat>)
    requires from <= |s|
    decreases |s| - from
    ensures r.Some? ==> from <= r.value && SepAt(s, r.value)
                        && forall j :: from <= j < r.value ==> !SepAt(s, j)
    ensures r.None? ==> forall j :: from <= j ==> !SepAt(s, j)
  {
    if from + 2 > |s| then None
    else if s[from] == '_' && s[from + 1] == '_' then Some(from)
    else FindSep(s, from + 1)
  }

  /** `s.split("__")`: the pieces between non-overlapping separators, scanned left to right. */
  function Split(s: string): (r: seq<string>)
    decreases |s|
    ensures |r| >= 1
  {
    match FindSep(s, 0)
    case None => [s]
    case Some(i) => [s[..i]] + Split(s[i + 2..])
  }

  /** `parts.join("__")`. */
  function Join(parts: seq<string>): string
    requires |parts| >= 1
  {
    if |parts| == 1 then parts[0] else parts[0] + "__" + Join(parts[1..])
  }

  /** Pieces that `Split` can produce: no "__" inside, and no piece but the last ends in '_'. */
  predicate Clean(parts: seq<string>)
  {
    && |parts| >= 1
    && (forall k :: 0 <= k < |parts| ==> !HasSep(parts[k]))
    && (forall k :: 0 <= k < |parts| - 1 ==> parts[k] == [] || parts[k][|parts[k]| - 1] != '_')
  }

  lemma {:induction false} JoinSplit(s: string)
    ensures Join(Split(s)) == s
    decreases |s|
  {
    match FindSep(s, 0)
    case None =>
    case Some(i) =>
      JoinSplit(s[i + 2..]);
      var r := Split(s);
      assert r[1..] == Split(s[i + 2..]);
      assert s == s[..i] + "__" + s[i + 2..];
  }

  lemma {:induction false} SplitClean(s: string)
    ensures Clean(Split(s))
    decreases |s|
  {
    match FindSep(s, 0)
    case None =>
      assert !HasSep(s);
    case Some(i) =>
      var rest := s[i + 2..];
      SplitClean(rest);
      var head := s[..i];
      assert !HasSep(head) by {
        if HasSep(head) {
          var j :| 0 <= j < |head| && SepAt(head, j);
          assert head[j] == s[j] && head[j + 1] == s[j + 1];
          assert SepAt(s, j);
        }
      }
      if head != [] {
        assert !SepAt(s, i - 1);
      }
      var r := Split(s);
      assert r == [head] + Split(rest);
      forall k | 1 <= k < |r|
        ensures !HasSep(r[k])
      {
        assert r[k] == Split(rest)[k - 1];
      }
  }

  lemma FirstSepOfJoin(head: string, tail: string)
    requires !HasSep(head) && (head == [] || head[|head| - 1] != '_')
    ensures FindSep(head + "__" + tail, 0) == Some(|head|)
  {
    var s := head + "__" + tail;
    assert SepAt(s, |head|);
    forall j | 0 <= j < |head|
      ensures !SepAt(s, j)
    {
      if j + 1 < |head| {
        assert !SepAt(head, j);
      }
    }
  }

  /** Splitting a joined list of clean pieces gives the pieces back. */
  lemma {:induction false} SplitJoin(parts: seq<string>)
    requires Clean(parts)
    ensures Split(Join(parts)) == parts
    decreases |parts|
  {
    if |parts| == 1 {
      assert !HasSep(parts[0]);
    } else {
      CleanTail(parts);
      SplitJoin(parts[1..]);
      SplitAfterHead(parts[0], Join(parts[1..]));
      assert [parts[0]] + parts[1..] == parts;
    }
  }

  lemma CleanTail(parts: seq<string>)
    requires Clean(parts) && |parts| >= 2
    ensures Clean(parts[1..])
  {
    var rest := parts[1..];
    forall k | 0 <= k < |rest| ensures !HasSep(rest[k]) { assert rest[k] == parts[k + 1]; }
    forall k | 0 <= k < |rest| - 1 ensures rest[k] == [] || rest[k][|rest[k]| - 1] != '_' {
      assert rest[k] == parts[k + 1];
    }
  }

  lemma SplitAfterHead(head: string, tail: string)
    requires !HasSep(head) && (head == [] || head[|head| - 1] != '_')
    ensures Split(head + "__" + tail) == [head] + Split(tail)
  {
    var s := head + "__" + tail;
    FirstSepOfJoin(head, tail);
    assert s[..|head|] == head;
    assert s[|head| + 2..] == tail;
  }

  // ---- the link ----

  datatype Link = Link(secret: string, sender: string, token: string)
  {
    /** `isSol`: exactly "SOL"; any other token text, the empty one included, is USDC. */
    predicate IsSol() { token == "SOL" }
  }

  /**
   * `const [secret, sender, token] = startapp?.split('__') || []` and the check that raises
   * "Invalid redemption link": the secret and sender must be non-empty and a third piece must
   * exist, though it may be empty. Pieces after the third are ignored.
   */
  function ParseLink(startapp: Option<string>): (r: Option<Link>)
    ensures startapp.None? ==> r.None?
    ensures r.Some? ==> r.value.secret != "" && r.value.sender != ""
    ensures startapp.Some? && |Split(startapp.value)| < 3 ==> r.None?
  {
    if startapp.None? then None
    else
      var parts := Split(startapp.value);
      if |parts| < 3 || parts[0] == "" || parts[1] == "" then None
      else Some(Link(parts[0], parts[1], parts[2]))
  }

  /** A link built from clean pieces, with a non-empty secret and sender, parses to its first three pieces. */
  lemma LinkRoundTrip(parts: seq<string>)
    requires Clean(parts) && |parts| >= 3 && parts[0] != "" && parts[1] != ""
    ensures ParseLink(Some(Join(parts))) == Some(Link(parts[0], parts[1], parts[2]))
  {
    SplitJoin(parts);
  }

  /** A link with an empty secret or sender never parses. */
  lemma EmptySecretOrSenderRejected(parts: seq<string>)
    requires Clean(parts) && (parts[0] == "" || (|parts| >= 2 && parts[1] == ""))
    ensures ParseLink(Some(Join(parts))).None?
  {
    SplitJoin(parts);
  }

  /** The mint passed along: the SOL mint iff the token is "SOL", otherwise the USDC mint. */
  function MintFor(link: Link): (mint: string)
    ensures mint == TokenPrices.TOKEN_LIST[0].mintAddress <==> link.IsSol()
    ensures !link.IsSol() ==> mint == TokenPrices.TOKEN_LIST[1].mintAddress
  {
    if link.IsSol() then TokenPrices.TOKEN_LIST[0].mintAddress else TokenPrices.TOKEN_LIST[1].mintAddress
  }

  /** What `new URL(inputUrl)` yields: an exception, or the `startapp` query value if any. */
  datatype UrlOutcome = InvalidUrl | Url(startapp: Option<string>)

  /** One call of the redeem operation: mint, sender, secret and the SOL flag. */
  datatype RedeemCall = RedeemCall(mint: string, sender: string, secret: string, isSol: bool)

  datatype Toast = Success(text: string) | Failure(text: string)

  /** The call the handler makes for a URL, if it gets that far. */
  function CallFor(url: UrlOutcome): (r: Option<RedeemCall>)
    ensures url.InvalidUrl? ==> r.None?
    ensures r.Some? ==> r.value.secret != "" && r.value.sender != ""
  {
    if url.InvalidUrl? then None
    else
      match ParseLink(url.startapp)
      case None => None
      case Some(link) => Some(RedeemCall(MintFor(link), link.sender, link.secret, link.IsSol()))
  }

  function SuccessText(isSol: bool): string
  {
    "Redeemed " + (if isSol then "SOL" else "USDC") + " successfully!"
  }

  const FAILURE_TEXT: string := "Failed to receive tokens: Invalid link or network error"

  /** The redeem form's state: the typed link, the loading flag, shown toasts and calls made. */
  class RedeemForm {
    var inputUrl: string
    var loading: bool
    var toasts: seq<Toast>
    var calls: seq<RedeemCall>

    constructor ()
      ensures inputUrl == "" && !loading && toasts == [] && calls == []
    {
      inputUrl := "";
      loading := false;
      toasts := [];
      calls := [];
    }

    /**
     * `handleRedeem`. Without a wallet only "Wallet not connected" is shown. Otherwise the link
     * is parsed, at most one call is made, exactly one toast reports the outcome, and `loading`
     * ends false.
     */
    method HandleRedeem(walletConnected: bool, parseUrl: string -> UrlOutcome, redeem: RedeemCall -> bool)
      modifies this
      ensures inputUrl == old(inputUrl)
      ensures !walletConnected ==>
        toasts == old(toasts) + [Failure("Wallet not connected")] && calls == old(calls) && loading == old(loading)
      ensures walletConnected ==> !loading
      ensures walletConnected ==>
        var call := CallFor(parseUrl(old(inputUrl)));
        && calls == old(calls) + (if call.Some? then [call.value] else [])
        && toasts == old(toasts) + [if call.Some? && redeem(call.value) then Success(SuccessText(call.value.isSol))
                                    else Failure(FAILURE_TEXT)]
    {
      if !walletConnected {
        toasts := toasts + [Failure("Wallet not connected")];
        return;
      }
      loading := true;
      var url := parseUrl(inputUrl);
      if url.InvalidUrl? {
        toasts := toasts + [Failure(FAILURE_TEXT)];
        loading := false;
        return;
      }
      var parts := if url.startapp.Some? then Split(url.startapp.value) else [];
      var secret := if |parts| > 0 then parts[0] else "";
      var sender := if |parts| > 1 then parts[1] else "";
      var isSol := |parts| > 2 && parts[2] == "SOL";
      if secret == "" || sender == "" || |parts| < 3 {
        toasts := toasts + [Failure(FAILURE_TEXT)];
        loading := false;
        return;
      }
      var call := RedeemCall(if isSol then TokenPrices.TOKEN_LIST[0].mintAddress else TokenPrices.TOKEN_LIST[1].mintAddress,
                             sender, secret, isSol);
      calls := calls + [call];
      if redeem(call) {
        toasts := toasts + [Success(SuccessText(isSol))];
      } else {
        toasts := toasts + [Failure(FAILURE_TEXT)];
      }
      loading := false;
    }
  }
}
