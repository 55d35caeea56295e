/**
 * The activity page: the SOL and USDC history of the wallet merged into one list, classified
 * as sent or received, and shown four entries per page with previous/next navigation.
 */
module Activity {
  import opened Wrappers
  import TokenPrices

  const ITEMS_PER_PAGE: nat := 4

  // ---- pagination ----

  /** `Math.ceil(n / itemsPerPage)`. */
  function PageCount(n: nat): (c: nat)
    ensures c * ITEMS_PER_PAGE >= n
    ensures c > 0 ==> (c - 1) * ITEMS_PER_PAGE < n
    ensures c == 0 <==> n == 0
  {
    (n + ITEMS_PER_PAGE - 1) / ITEMS_PER_PAGE
  }

  /** A JavaScript slice index: negative counts from the end, and the result is clamped to the list. */
  function SliceIndex(i: int, n: nat): (k: nat)
    ensures k <= n
  {
    if i < 0 then (if n + i < 0 then 0 else n + i) else if i > n then n else i
  }

  /** `xs.slice(start, end)`. */
  function Slice<T>(xs: seq<T>, start: int, end: int): seq<T>
  {
    var s, e := SliceIndex(start, |xs|), SliceIndex(end, |xs|);
    if e <= s then [] else xs[s..e]
  }

  function Min(a: int, b: int): int { if a < b then a else b }

  /** `transactions.slice(indexOfFirstItem, indexOfLastItem)` for page `p`. */
  function Page<T>(xs: seq<T>, p: int): (r: seq<T>)
    ensures |r| <= ITEMS_PER_PAGE
    ensures forall x :: x in r ==> x in xs
  {
    Slice(xs, p * ITEMS_PER_PAGE - ITEMS_PER_PAGE, p * ITEMS_PER_PAGE)
  }

  /** Page `p >= 1` is the items from `(p-1)*4` up to `p*4`, cut at the end of the list. */
  lemma PageIsWindow<T>(xs: seq<T>, p: int)
    requires p >= 1
    ensures Page(xs, p) == xs[Min((p - 1) * ITEMS_PER_PAGE, |xs|)..Min(p * ITEMS_PER_PAGE, |xs|)]
    ensures |Page(xs, p)| <= ITEMS_PER_PAGE
  {
  }

  /** Each page from 1 to the page count is non-empty. */
  lemma PagesInRangeNonEmpty<T>(xs: seq<T>, p: int)
    requires 1 <= p <= PageCount(|xs|)
    ensures 0 < |Page(xs, p)|
  {
    PageIsWindow(xs, p);
  }

  /** Pages 1 to `k` one after another. */
  function Pages<T>(xs: seq<T>, k: nat): seq<T>
  {
    if k == 0 then [] else Pages(xs, k - 1) + Page(xs, k)
  }

  lemma {:induction false} PagesArePrefix<T>(xs: seq<T>, k: nat)
    ensures Pages(xs, k) == xs[..Min(k * ITEMS_PER_PAGE, |xs|)]
  {
    if k > 0 {
      PagesArePrefix(xs, k - 1);
      PageIsWindow(xs, k);
      var a, b := Min((k - 1) * ITEMS_PER_PAGE, |xs|), Min(k * ITEMS_PER_PAGE, |xs|);
      assert xs[..a] + xs[a..b] == xs[..b];
    }
  }

  /** The pages, taken in order up to the page count, are exactly the list: no gap, no overlap. */
  lemma PagesPartition<T>(xs: seq<T>)
    ensures Pages(xs, PageCount(|xs|)) == xs
  {
    PagesArePrefix(xs, PageCount(|xs|));
    assert xs[..|xs|] == xs;
  }

  /** "Previous" is disabled on page 1, "Next" on the last page. */
  predicate PreviousDisabled(currentPage: int) { currentPage == 1 }

  predicate NextDisabled(currentPage: int, n: nat) { currentPage == PageCount(n) }

  // ---- classification and merge ----

  datatype Kind = Sent | Received

  /** An entry before the type guard; a missing field is `None`, a dropped USDC entry is `Null`. */
  datatype RawEntry =
    | Null
    | Raw(signature: Option<string>, date: Option<string>, amount: Option<int>,
          kind: Option<Kind>, currency: Option<string>)

  /** An entry that passed the guard. */
  datatype Transaction = Transaction(signature: string, date: string, amount: int, kind: Kind, currency: string)

  /** A SOL history item: the signature, its block time and the first pre/post balances in lamports. */
  datatype SolTx = SolTx(signature: string, blockTime: Option<int>, preBalance: Option<int>, postBalance: Option<int>)

  /** A USDC history item; the amount is in millionths of a USDC. */
  datatype UsdcTx = UsdcTx(signature: string, blockTime: Option<int>, amount: Option<int>)

  /** A token account of the owner with the history of its address. */
  datatype TokenAccount = TokenAccount(mint: string, history: seq<UsdcTx>)

  function Abs(x: int): nat { if x < 0 then -x else x }

  /**
   * A SOL entry: the delta `post - pre` with missing balances read as 0, "received" iff the
   * delta is positive, and the absolute delta as amount.
   */
  function SolEntry(tx: SolTx, formatDate: int -> string): (e: RawEntry)
    ensures e.Raw? && e.signature == Some(tx.signature) && e.currency == Some("SOL")
    ensures e.amount.Some? && e.kind.Some? && e.date.Some?
  {
    var delta := tx.postBalance.GetOr(0) - tx.preBalance.GetOr(0);
    Raw(Some(tx.signature), Some(formatDate(tx.blockTime.GetOr(0) * 1000)), Some(Abs(delta)),
        Some(if delta > 0 then Received else Sent), Some("SOL"))
  }

  /** The kind and the amount of a SOL entry give back the signed balance change. */
  lemma SolEntryRecoversDelta(tx: SolTx, formatDate: int -> string)
    ensures var e := SolEntry(tx, formatDate);
      var delta := tx.postBalance.GetOr(0) - tx.preBalance.GetOr(0);
      && (e.kind == Some(Received) <==> delta > 0)
      && (if e.kind == Some(Received) then e.amount.value else -e.amount.value) == delta
  {
  }

  /** A USDC entry: `null` when the absolute amount rounds to "0.00", else classified like SOL. */
  function UsdcEntry(tx: UsdcTx, formatDate: int -> string): (e: RawEntry)
    ensures e.Null? <==> Abs(tx.amount.GetOr(0)) < 5000
    ensures e.Raw? ==> e.currency == Some("USDC") && e.amount == Some(Abs(tx.amount.GetOr(0)))
  {
    var amount := tx.amount.GetOr(0);
    if Abs(amount) < 5000 then Null
    else Raw(Some(tx.signature), Some(formatDate(tx.blockTime.GetOr(0) * 1000)), Some(Abs(amount)),
             Some(if amount > 0 then Received else Sent), Some("USDC"))
  }

  function SolEntries(txs: seq<SolTx>, formatDate: int -> string): (r: seq<RawEntry>)
    ensures |r| == |txs| && forall i :: 0 <= i < |txs| ==> r[i] == SolEntry(txs[i], formatDate)
  {
    seq(|txs|, i requires 0 <= i < |txs| => SolEntry(txs[i], formatDate))
  }

  function UsdcEntries(txs: seq<UsdcTx>, formatDate: int -> string): (r: seq<RawEntry>)
    ensures |r| == |txs| && forall i :: 0 <= i < |txs| ==> r[i] == UsdcEntry(txs[i], formatDate)
  {
    seq(|txs|, i requires 0 <= i < |txs| => UsdcEntry(txs[i], formatDate))
  }

  /** `usdcTransactions.flat()`: the entries of USDC-mint accounts, in account order; other accounts add nothing. */
  function UsdcFlat(accounts: seq<TokenAccount>, formatDate: int -> string): (r: seq<RawEntry>)
    ensures (forall a :: a in accounts ==> a.mint != TokenPrices.TOKEN_LIST[1].mintAddress) ==> r == []
  {
    if accounts == [] then []
    else
      assert accounts[0] in accounts && forall a :: a in accounts[1..] ==> a in accounts;
      (if accounts[0].mint == TokenPrices.TOKEN_LIST[1].mintAddress
       then UsdcEntries(accounts[0].history, formatDate) else [])
      + UsdcFlat(accounts[1..], formatDate)
  }

  /** A token account of another mint adds no entry, wherever it stands. */
  lemma UsdcFlatSkipsOtherMints(a: TokenAccount, rest: seq<TokenAccount>, formatDate: int -> string)
    requires a.mint != TokenPrices.TOKEN_LIST[1].mintAddress
    ensures UsdcFlat([a] + rest, formatDate) == UsdcFlat(rest, formatDate)
  {
    assert ([a] + rest)[1..] == rest;
  }

  /** A USDC-mint account adds its own entries, in order, ahead of the accounts after it. */
  lemma UsdcFlatTakesUsdcMint(a: TokenAccount, rest: seq<TokenAccount>, formatDate: int -> string)
    requires a.mint == TokenPrices.TOKEN_LIST[1].mintAddress
    ensures UsdcFlat([a] + rest, formatDate) == UsdcEntries(a.history, formatDate) + UsdcFlat(rest, formatDate)
  {
    assert ([a] + rest)[1..] == rest;
  }

  /** The type guard of the final filter. */
  predicate Complete(e: RawEntry)
  {
    e.Raw? && e.signature.Some? && e.date.Some? && e.amount.Some? && e.kind.Some? && e.currency.Some?
  }

  function ToTransaction(e: RawEntry): Transaction
    requires Complete(e)
  {
    Transaction(e.signature.value, e.date.value, e.amount.value, e.kind.value, e.currency.value)
  }

  /** `.filter(guard).map(...)`: the complete entries, converted, in their order. */
  function Keep(es: seq<RawEntry>): (r: seq<Transaction>)
    ensures |r| <= |es|
  {
    if es == [] then []
    else (if Complete(es[0]) then [ToTransaction(es[0])] else []) + Keep(es[1..])
  }

  lemma {:induction false} KeepAppend(a: seq<RawEntry>, b: seq<RawEntry>)
    ensures Keep(a + b) == Keep(a) + Keep(b)
  {
    if a == [] {
      assert a + b == b;
    } else {
      var h := if Complete(a[0]) then [ToTransaction(a[0])] else [];
      assert (a + b)[0] == a[0] && (a + b)[1..] == a[1..] + b;
      assert Keep(a + b) == h + Keep(a[1..] + b);
      assert Keep(a) == h + Keep(a[1..]);
      KeepAppend(a[1..], b);
    }
  }

  /** Every entry kept comes from a complete entry of the input. */
  lemma {:induction false} KeepSound(es: seq<RawEntry>, t: Transaction)
    requires t in Keep(es)
    ensures exists e :: e in es && Complete(e) && ToTransaction(e) == t
  {
    if es != [] {
      if Complete(es[0]) && t == ToTransaction(es[0]) {
      } else {
        KeepSound(es[1..], t);
        var e :| e in es[1..] && Complete(e) && ToTransaction(e) == t;
        assert e in es;
      }
    }
  }

  /** Complete entries are never dropped. */
  lemma {:induction false} KeepAllComplete(es: seq<RawEntry>)
    requires forall i :: 0 <= i < |es| ==> Complete(es[i])
    ensures |Keep(es)| == |es|
    ensures forall i :: 0 <= i < |es| ==> Keep(es)[i] == ToTransaction(es[i])
  {
    if es != [] {
      KeepAllComplete(es[1..]);
    }
  }

  /** The list the page shows: the SOL entries, then the USDC entries, then the guard. */
  function Merge(sol: seq<SolTx>, accounts: seq<TokenAccount>, formatDate: int -> string): (r: seq<Transaction>)
    ensures |r| <= |sol| + |UsdcFlat(accounts, formatDate)|
  {
    Keep(SolEntries(sol, formatDate) + UsdcFlat(accounts, formatDate))
  }

  lemma {:induction false} UsdcFlatIsUsdc(accounts: seq<TokenAccount>, formatDate: int -> string)
    ensures forall e :: e in UsdcFlat(accounts, formatDate) && e.Raw? ==> e.currency == Some("USDC")
  {
    if accounts != [] {
      UsdcFlatIsUsdc(accounts[1..], formatDate);
    }
  }

  /**
   * The merged list starts with every SOL entry in fetch order, and everything after them is
   * a USDC entry.
   */
  lemma MergeOrder(sol: seq<SolTx>, accounts: seq<TokenAccount>, formatDate: int -> string)
    ensures var m := Merge(sol, accounts, formatDate);
      && |m| >= |sol|
      && (forall i :: 0 <= i < |sol| ==> m[i] == ToTransaction(SolEntry(sol[i], formatDate)))
      && (forall i :: |sol| <= i < |m| ==> m[i].currency == "USDC")
      && m[|sol|..] == Keep(UsdcFlat(accounts, formatDate))
  {
    var s, u := SolEntries(sol, formatDate), UsdcFlat(accounts, formatDate);
    KeepAppend(s, u);
    KeepAllComplete(s);
    KeptUsdcIsUsdc(accounts, formatDate);
    var m := Merge(sol, accounts, formatDate);
    assert m == Keep(s) + Keep(u);
    assert m[|sol|..] == Keep(u);
    forall i | 0 <= i < |sol|
      ensures m[i] == ToTransaction(SolEntry(sol[i], formatDate))
    {
      assert m[i] == Keep(s)[i] && s[i] == SolEntry(sol[i], formatDate);
    }
    forall i | |sol| <= i < |m|
      ensures m[i].currency == "USDC"
    {
      assert m[i] == Keep(u)[i - |sol|];
    }
  }

  lemma KeptUsdcIsUsdc(accounts: seq<TokenAccount>, formatDate: int -> string)
    ensures forall t :: t in Keep(UsdcFlat(accounts, formatDate)) ==> t.currency == "USDC"
  {
    var u := UsdcFlat(accounts, formatDate);
    UsdcFlatIsUsdc(accounts, formatDate);
    forall t | t in Keep(u) ensures t.currency == "USDC" {
      KeepSound(u, t);
    }
  }

  /** What loading the history produced: the two histories, or an exception. */
  datatype FetchOutcome = Fetched(sol: seq<SolTx>, accounts: seq<TokenAccount>) | FetchFailed

  /** The page's state. */
  class ActivityPage {
    var transactions: seq<Transaction>
    var loading: bool
    var currentPage: int
    var toasts: seq<string>

    constructor ()
      ensures transactions == [] && loading && currentPage == 1 && toasts == []
    {
      transactions := [];
      loading := true;
      currentPage := 1;
      toasts := [];
    }

    /** The entries shown on the current page. */
    function CurrentTransactions(): seq<Transaction>
      reads this
    {
      Page(transactions, currentPage)
    }

    /** The navigation buttons are on screen: loading is over and the page has entries. */
    predicate ButtonsShown()
      reads this
    {
      !loading && |CurrentTransactions()| > 0
    }

    /** The fetch effect: without a wallet key only `loading` is reset; a failure keeps the old list. */
    method FetchTransactions(walletHasKey: bool, outcome: FetchOutcome, formatDate: int -> string)
      modifies this
      ensures !loading && currentPage == old(currentPage)
      ensures walletHasKey && outcome.Fetched? ==>
        transactions == Merge(outcome.sol, outcome.accounts, formatDate) && toasts == old(toasts)
      ensures walletHasKey && outcome.FetchFailed? ==>
        transactions == old(transactions) && toasts == old(toasts) + ["Failed to fetch transactions"]
      ensures !walletHasKey ==> transactions == old(transactions) && toasts == old(toasts)
    {
      if walletHasKey {
        loading := true;
        match outcome {
          case Fetched(sol, accounts) =>
            var solEntries := SolEntries(sol, formatDate);
            var usdcEntries := UsdcFlat(accounts, formatDate);
            transactions := Keep(solEntries + usdcEntries);
          case FetchFailed =>
            toasts := toasts + ["Failed to fetch transactions"];
        }
      }
      loading := false;
    }

    /** The "Previous" button: one page back unless it is hidden or disabled. */
    method HandlePrevious()
      modifies this
      ensures transactions == old(transactions) && loading == old(loading) && toasts == old(toasts)
      ensures currentPage == if old(ButtonsShown()) && !PreviousDisabled(old(currentPage))
                             then old(currentPage) - 1 else old(currentPage)
    {
      if ButtonsShown() && !PreviousDisabled(currentPage) {
        currentPage := currentPage - 1;
      }
    }

    /** The "Next" button: one page on unless it is hidden or disabled. */
    method HandleNext()
      modifies this
      ensures transactions == old(transactions) && loading == old(loading) && toasts == old(toasts)
      ensures currentPage == if old(ButtonsShown()) && !NextDisabled(old(currentPage), |old(transactions)|)
                             then old(currentPage) + 1 else old(currentPage)
    {
      if ButtonsShown() && !NextDisabled(currentPage, |transactions|) {
        currentPage := currentPage + 1;
      }
    }
  }

  /**
   * While the list stays the same, a page number within `1..PageCount` stays within it after
   * either button, because the buttons are only shown on a non-empty page.
   */
  lemma NavigationStaysInRange(n: nat, p: int, shown: bool)
    requires 1 <= p <= PageCount(n)
    ensures var back := if shown && !PreviousDisabled(p) then p - 1 else p;
      1 <= back <= PageCount(n)
    ensures var on := if shown && !NextDisabled(p, n) then p + 1 else p;
      1 <= on <= PageCount(n)
  {
  }
}
