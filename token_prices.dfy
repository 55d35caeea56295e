/**
 * The wallet's token list with prices: the symbol-to-price record built from the exchange's
 * ticker list, the module-level thirty-second price cache, and the shaping of the token list
 * into balances with prices.
 *
 * The price record is modelled AS WRITTEN. In the per-symbol loop the test
 * `if ((symbol = 'SOL'))` assigns instead of comparing, so every symbol other than "USDC" is
 * rebound to "SOL" before its ticker is looked up. Only the "SOL" key can ever receive a
 * fetched price, and it is written even when "SOL" was not requested.
 */
module TokenPrices {
  import opened Wrappers

  /** One entry of the ticker list: `{ symbol, price }`, the price still as text. */
  datatype Quote = Quote(symbol: string, price: string)

  /** What the ticker request produced: an ok response with its list, a non-ok status, or an exception. */
  datatype TickerResponse = Body(data: seq<Quote>) | NotOk | Threw

  type Prices = map<string, real>

  const PRICE_CACHE_DURATION: int := 30000

  /** The fixed `binanceSymbols` table. */
  function BinanceSymbol(symbol: string): (r: Option<string>)
    ensures r.Some? <==> symbol == "SOL" || symbol == "BONK"
  {
    if symbol == "SOL" then Some("SOLUSDT")
    else if symbol == "BONK" then Some("BONKUSDT")
    else None
  }

  /** `data.find(p => p.symbol === target)`: the first quote for `target`. */
  function Find(data: seq<Quote>, target: string): (r: Option<Quote>)
    ensures r.None? <==> forall q :: q in data ==> q.symbol != target
    ensures r.Some? ==> exists i :: 0 <= i < |data| && data[i] == r.value && r.value.symbol == target
                          && forall j :: 0 <= j < i ==> data[j].symbol != target
  {
    if data == [] then None
    else if data[0].symbol == target then Some(data[0])
    else
      var r := Find(data[1..], target);
      if r.Some? then
        ghost var i :| 0 <= i < |data[1..]| && data[1..][i] == r.value && r.value.symbol == target
                       && forall j :: 0 <= j < i ==> data[1..][j].symbol != target;
        assert data[i + 1] == r.value;
        r
      else
        assert forall q :: q in data ==> q == data[0] || q in data[1..];
        r
  }

  /** The first loop: every requested symbol at 0. */
  function Zeroes(symbols: seq<string>): Prices
  {
    map s | s in symbols :: 0.0
  }

  /** One pass of the second loop, with the rebinding of line 59. */
  function Step(prices: Prices, symbol: string, data: seq<Quote>, parseFloat: string -> real): Prices
  {
    if symbol == "USDC" then prices[symbol := 1.0]
    else
      var rebound := "SOL";
      match BinanceSymbol(rebound)
      case None => prices
      case Some(pair) =>
        match Find(data, pair)
        case None => prices
        case Some(quote) => prices[rebound := parseFloat(quote.price)]
  }

  /** The second loop run over `symbols`, in order. */
  function Fill(prices: Prices, symbols: seq<string>, data: seq<Quote>, parseFloat: string -> real): Prices
  {
    if symbols == [] then prices
    else Step(Fill(prices, symbols[..|symbols| - 1], data, parseFloat), symbols[|symbols| - 1], data, parseFloat)
  }

  /** The `catch` branch: "USDC" at 1 and every other requested symbol at 0. */
  function Fallback(symbols: seq<string>): (r: Prices)
    ensures r.Keys == set s | s in symbols
  {
    map s | s in symbols :: if s == "USDC" then 1.0 else 0.0
  }

  /** The record `fetchTokenPrices` resolves to. */
  function PricesFor(symbols: seq<string>, response: TickerResponse, parseFloat: string -> real): (r: Prices)
    ensures forall s :: s in symbols ==> s in r
    ensures "USDC" in symbols ==> r["USDC"] == 1.0
    ensures forall k :: k in r && k != "SOL" ==> k in symbols
  {
    match response
    case Body(data) =>
      FillClosed(Zeroes(symbols), symbols, data, parseFloat);
      Fill(Zeroes(symbols), symbols, data, parseFloat)
    case _ => Fallback(symbols)
  }

  /** `fetchTokenPrices`: fills the record with two loops over the requested symbols. */
  method FetchTokenPrices(symbols: seq<string>, response: TickerResponse, parseFloat: string -> real)
    returns (prices: Prices)
    ensures prices == PricesFor(symbols, response, parseFloat)
  {
    if !response.Body? {
      return Fallback(symbols);
    }
    var data := response.data;
    prices := map[];
    var i := 0;
    while i < |symbols|
      invariant 0 <= i <= |symbols|
      invariant prices == Zeroes(symbols[..i])
    {
      assert symbols[..i + 1] == symbols[..i] + [symbols[i]];
      prices := prices[symbols[i] := 0.0];
      i := i + 1;
    }
    assert symbols[..|symbols|] == symbols;
    var start := prices;
    i := 0;
    while i < |symbols|
      invariant 0 <= i <= |symbols|
      invariant prices == Fill(start, symbols[..i], data, parseFloat)
    {
      var symbol := symbols[i];
      assert symbols[..i + 1][..i] == symbols[..i];
      if symbol == "USDC" {
        prices := prices[symbol := 1.0];
      } else {
        symbol := "SOL";
        var binanceSymbol := BinanceSymbol(symbol);
        if binanceSymbol.Some? {
          var price := Find(data, binanceSymbol.value);
          if price.Some? {
            prices := prices[symbol := parseFloat(price.value.price)];
          }
        }
      }
      i := i + 1;
    }
    assert symbols[..|symbols|] == symbols;
  }

  // ---- what the record holds ----

  predicate HasNonUsdc(symbols: seq<string>)
  {
    exists i :: 0 <= i < |symbols| && symbols[i] != "USDC"
  }

  /** The "SOL" write of line 67 happens: some symbol is not "USDC" and a SOLUSDT quote exists. */
  predicate SolWritten(symbols: seq<string>, data: seq<Quote>)
  {
    HasNonUsdc(symbols) && Find(data, "SOLUSDT").Some?
  }

  /** The loop's result in closed form: at most the two writes, to "USDC" and to "SOL". */
  function Closed(prices: Prices, symbols: seq<string>, data: seq<Quote>, parseFloat: string -> real): Prices
  {
    var withUsdc := if "USDC" in symbols then prices["USDC" := 1.0] else prices;
    if SolWritten(symbols, data) then withUsdc["SOL" := parseFloat(Find(data, "SOLUSDT").value.price)]
    else withUsdc
  }

  lemma {:induction false} FillClosed(prices: Prices, symbols: seq<string>, data: seq<Quote>, parseFloat: string -> real)
    ensures Fill(prices, symbols, data, parseFloat) == Closed(prices, symbols, data, parseFloat)
  {
    if symbols != [] {
      var init, last := symbols[..|symbols| - 1], symbols[|symbols| - 1];
      FillClosed(prices, init, data, parseFloat);
      assert symbols == init + [last];
      ClosedStep(prices, init, last, data, parseFloat);
    }
  }

  /** One more pass of the loop keeps the closed form. */
  lemma ClosedStep(prices: Prices, init: seq<string>, last: string, data: seq<Quote>, parseFloat: string -> real)
    ensures Step(Closed(prices, init, data, parseFloat), last, data, parseFloat)
            == Closed(prices, init + [last], data, parseFloat)
  {
    var symbols := init + [last];
    assert "USDC" in symbols <==> "USDC" in init || last == "USDC";
    HasNonUsdcAppend(init, last);
  }

  lemma HasNonUsdcAppend(init: seq<string>, last: string)
    ensures HasNonUsdc(init + [last]) == (HasNonUsdc(init) || last != "USDC")
  {
    var symbols := init + [last];
    if HasNonUsdc(symbols) && last == "USDC" {
      var i :| 0 <= i < |symbols| && symbols[i] != "USDC";
      assert i < |init| && init[i] == symbols[i];
    }
    if HasNonUsdc(init) {
      var i :| 0 <= i < |init| && init[i] != "USDC";
      assert symbols[i] == init[i];
    }
    if last != "USDC" {
      assert symbols[|init|] == last;
    }
  }

  /**
   * On an ok response: every requested symbol is a key, "USDC" is 1, "SOL" holds the SOLUSDT
   * price whenever any non-USDC symbol was requested, and every other key is a requested
   * symbol left at 0.
   */
  lemma PricesOnSuccess(symbols: seq<string>, data: seq<Quote>, parseFloat: string -> real)
    ensures var r := PricesFor(symbols, Body(data), parseFloat);
      && (forall s :: s in symbols ==> s in r)
      && ("USDC" in symbols ==> r["USDC"] == 1.0)
      && ("SOL" in r <==> "SOL" in symbols || SolWritten(symbols, data))
      && (SolWritten(symbols, data) ==> r["SOL"] == parseFloat(Find(data, "SOLUSDT").value.price))
      && ("SOL" in symbols && !SolWritten(symbols, data) ==> r["SOL"] == 0.0)
      && (forall k :: k in r && k != "USDC" && k != "SOL" ==> k in symbols && r[k] == 0.0)
  {
    FillClosed(Zeroes(symbols), symbols, data, parseFloat);
  }

  /** On any failure: "USDC" is 1 and every other requested symbol is 0, and nothing else is a key. */
  lemma PricesOnFailure(symbols: seq<string>, response: TickerResponse, parseFloat: string -> real)
    requires !response.Body?
    ensures var r := PricesFor(symbols, response, parseFloat);
      && (forall k :: k in r <==> k in symbols)
      && (forall k :: k in r ==> r[k] == (if k == "USDC" then 1.0 else 0.0))
  {
  }

  /** "USDC" is priced at 1 on every path. */
  lemma UsdcAlwaysOne(symbols: seq<string>, response: TickerResponse, parseFloat: string -> real)
    requires "USDC" in symbols
    ensures var r := PricesFor(symbols, response, parseFloat); "USDC" in r && r["USDC"] == 1.0
  {
    if response.Body? {
      PricesOnSuccess(symbols, response.data, parseFloat);
    }
  }

  /** A requested symbol other than "USDC" and "SOL" (for instance "BONK") is 0 on every path. */
  lemma OtherSymbolsNeverPriced(symbols: seq<string>, response: TickerResponse, parseFloat: string -> real, s: string)
    requires s in symbols && s != "USDC" && s != "SOL"
    ensures var r := PricesFor(symbols, response, parseFloat); s in r && r[s] == 0.0
  {
    if response.Body? {
      PricesOnSuccess(symbols, response.data, parseFloat);
    }
  }

  /** Requesting only "BONK" with a BONKUSDT quote present yields BONK 0 and an unrequested "SOL" key. */
  lemma BonkRequestWritesSol(bonkPrice: string, solPrice: string, parseFloat: string -> real)
    ensures var data := [Quote("BONKUSDT", bonkPrice), Quote("SOLUSDT", solPrice)];
      var r := PricesFor(["BONK"], Body(data), parseFloat);
      r == map["BONK" := 0.0, "SOL" := parseFloat(solPrice)]
  {
    var data := [Quote("BONKUSDT", bonkPrice), Quote("SOLUSDT", solPrice)];
    assert Find(data, "SOLUSDT") == Some(Quote("SOLUSDT", solPrice));
    assert SolWritten(["BONK"], data) by { assert ["BONK"][0] != "USDC"; }
    FillClosed(Zeroes(["BONK"]), ["BONK"], data, parseFloat);
    assert Zeroes(["BONK"]) == map["BONK" := 0.0];
  }

  // ---- balances and output shaping ----

  /** A token of the list; the icon is not modelled. */
  datatype Token = Token(symbol: string, mintAddress: string)

  /** The wallet's fixed token list: SOL, USDC and BRZ, with their mint addresses. */
  const TOKEN_LIST: seq<Token> := [
    Token("SOL", "So11111111111111111111111111111111111111112"),
    Token("USDC", "4zMMC9srt5Ri5X14GAgXhaHii3GnPAEERYPJgZJDncDU"),
    Token("BRZ", "FtgGSFADXBtroxq8VCausXRr2of47QBf5AS1NtZCu4GD")
  ]

  datatype TokenWithPrice = TokenWithPrice(symbol: string, mintAddress: string, balance: real, usdPrice: Option<real>)

  /**
   * The balance lookup of one token: the balance, already converted to whole units; a failure
   * inside the inner `try` (the token account lookup, creation and re-read), which is caught;
   * or a failure outside it (the SOL balance request, an invalid key or mint), which rejects
   * the whole call.
   */
  datatype Lookup = Found(balance: real) | CaughtFailure | UncaughtFailure

  /** Whether the lookup of `t` rejects the whole `Promise.all`. */
  predicate Rejects(t: Token, lookup: Token -> Lookup)
  {
    lookup(t).UncaughtFailure? || (t.symbol == "SOL" && lookup(t).CaughtFailure?)
  }

  /** The balance of one token whose lookup does not reject. */
  function BalanceOf(t: Token, lookup: Token -> Lookup): real
  {
    if lookup(t).Found? then lookup(t).balance else 0.0
  }

  /** `Promise.all(tokenList.map(...))`: `None` when any lookup rejects. */
  function Balances(tokens: seq<Token>, lookup: Token -> Lookup): (r: Option<seq<(Token, real)>>)
    ensures r.None? <==> exists i :: 0 <= i < |tokens| && Rejects(tokens[i], lookup)
    ensures r.Some? ==> |r.value| == |tokens|
    ensures r.Some? ==> forall i :: 0 <= i < |tokens| ==> r.value[i] == (tokens[i], BalanceOf(tokens[i], lookup))
  {
    if tokens == [] then Some([])
    else if Rejects(tokens[0], lookup) then None
    else
      var rest := Balances(tokens[1..], lookup);
      if rest.None? then
        ghost var i :| 0 <= i < |tokens[1..]| && Rejects(tokens[1..][i], lookup);
        assert Rejects(tokens[i + 1], lookup);
        None
      else
        Some([(tokens[0], BalanceOf(tokens[0], lookup))] + rest.value)
  }

  /** `balances.map(...)`: each token with its balance and `priceCache[symbol]`, in list order. */
  function Shape(balances: seq<(Token, real)>, cache: Prices): (r: seq<TokenWithPrice>)
    ensures |r| == |balances|
    ensures forall i :: 0 <= i < |r| ==>
      && r[i].symbol == balances[i].0.symbol
      && r[i].mintAddress == balances[i].0.mintAddress
      && r[i].balance == balances[i].1
      && (r[i].usdPrice.Some? <==> balances[i].0.symbol in cache)
      && (r[i].usdPrice.Some? ==> r[i].usdPrice.value == cache[balances[i].0.symbol])
  {
    seq(|balances|, i requires 0 <= i < |balances| =>
      var t := balances[i].0;
      TokenWithPrice(t.symbol, t.mintAddress, balances[i].1,
                     if t.symbol in cache then Some(cache[t.symbol]) else None))
  }

  function Symbols(tokens: seq<Token>): (r: seq<string>)
    ensures |r| == |tokens| && forall i :: 0 <= i < |tokens| ==> r[i] == tokens[i].symbol
  {
    seq(|tokens|, i requires 0 <= i < |tokens| => tokens[i].symbol)
  }

  /** The refresh rule: strictly more than thirty seconds since the last fetch. */
  predicate NeedsRefresh(lastFetch: int, nowMs: int)
    ensures NeedsRefresh(lastFetch, nowMs) ==> nowMs > lastFetch
  {
    nowMs - lastFetch > PRICE_CACHE_DURATION
  }

  /** Within thirty seconds of a refresh no further refresh happens. */
  lemma NoRefreshWithinWindow(t: int, nowMs: int)
    requires t <= nowMs <= t + PRICE_CACHE_DURATION
    ensures !NeedsRefresh(t, nowMs)
  {
  }

  /** The module-level `priceCache` and `lastPriceFetch`. */
  class PriceCache {
    var prices: Prices
    var lastFetch: int

    constructor ()
      ensures prices == map[] && lastFetch == 0
    {
      prices := map[];
      lastFetch := 0;
    }

    /**
     * `fetchTokenBalances`. A rejecting lookup leaves the cache as it was. Otherwise the cache is
     * refreshed iff the rule holds, and the result lists every token in order with its balance
     * and its cached price.
     */
    method FetchTokenBalances(tokens: seq<Token>, lookup: Token -> Lookup, nowMs: int,
                              response: TickerResponse, parseFloat: string -> real)
      returns (result: Option<seq<TokenWithPrice>>)
      modifies this
      ensures result.None? <==> Balances(tokens, lookup).None?
      ensures result.None? ==> prices == old(prices) && lastFetch == old(lastFetch)
      ensures result.Some? && NeedsRefresh(old(lastFetch), nowMs) ==>
                prices == PricesFor(Symbols(tokens), response, parseFloat) && lastFetch == nowMs
      ensures result.Some? && !NeedsRefresh(old(lastFetch), nowMs) ==>
                prices == old(prices) && lastFetch == old(lastFetch)
      ensures result.Some? ==> result.value == Shape(Balances(tokens, lookup).value, prices)
    {
      var balances := Balances(tokens, lookup);
      if balances.None? {
        return None;
      }
      if nowMs - lastFetch > PRICE_CACHE_DURATION {
        prices := FetchTokenPrices(Symbols(tokens), response, parseFloat);
        lastFetch := nowMs;
      }
      return Some(Shape(balances.value, prices));
    }
  }
}
