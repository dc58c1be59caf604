/** Account health and liquidation (include/MangoAccount.hpp). */
module MangoHealth {
  import opened Fixed
  import opened Mango
  import opened Numerals
  import Base58
  import PublicKeys
  import Serum

  /** The conversion of a raw number to double, of which nothing is assumed. */
  type ToDouble = int -> real

  function AbsReal(x: real): real {
    if x < 0.0 then -x else x
  }

  // ----- Worst-case scenarios of one market -----

  /** A position and the quote amount that goes with it. */
  datatype Scenario = Scenario(base: int, quote: int)

  /** The spot scenarios of open orders on top of a net balance: all bids, or all asks, executed. */
  function SpotBids(baseNet: int, price: int, o: Serum.OpenOrders): Scenario
    requires price != 0
  {
    var (quoteFree, quoteLocked, baseFree, baseLocked) := SplitOpenOrders(o);
    Scenario(baseNet + Divided(FromInt(quoteLocked), price) + FromInt(baseFree) + FromInt(baseLocked), FromInt(quoteFree))
  }

  function SpotAsks(baseNet: int, price: int, o: Serum.OpenOrders): Scenario {
    var (quoteFree, quoteLocked, baseFree, baseLocked) := SplitOpenOrders(o);
    Scenario(baseNet + FromInt(baseFree), Mul(FromInt(baseLocked), price) + FromInt(quoteFree) + FromInt(quoteLocked))
  }

  function SpotWorst(baseNet: int, price: int, o: Serum.OpenOrders, toDouble: ToDouble): Scenario
    requires price != 0
  {
    var bids, asks := SpotBids(baseNet, price, o), SpotAsks(baseNet, price, o);
    if AbsReal(toDouble(bids.base)) > AbsReal(toDouble(asks.base)) then bids else asks
  }

  /** The perp scenarios, in base units and raw quote. */
  function PerpBids(p: PerpAccountInfo, m: PerpMarketInfo, c: PerpMarketCache, price: int): Scenario {
    var quantity := p.bidsQuantity * m.baseLotSize;
    Scenario((p.basePosition + p.takerBase) * m.baseLotSize + quantity,
             QuotePosition(p, c) + FromInt(p.takerQuote * m.quoteLotSize) - Mul(FromInt(quantity), price))
  }

  function PerpAsks(p: PerpAccountInfo, m: PerpMarketInfo, c: PerpMarketCache, price: int): Scenario {
    var quantity := p.asksQuantity * m.baseLotSize;
    Scenario((p.basePosition + p.takerBase) * m.baseLotSize - quantity,
             QuotePosition(p, c) + FromInt(p.takerQuote * m.quoteLotSize) + Mul(FromInt(quantity), price))
  }

  function PerpWorst(p: PerpAccountInfo, m: PerpMarketInfo, c: PerpMarketCache, price: int): Scenario {
    var bids, asks := PerpBids(p, m, c, price), PerpAsks(p, m, c, price);
    if Abs(bids.base) > Abs(asks.base) then bids else asks
  }

  // ----- Components -----

  predicate Shaped(a: MangoAccount, g: MangoGroup, c: MangoCache) {
    a.Valid() && g.Valid() && c.Valid()
  }

  /** No market with open orders has a zero price; on such a market the division throws. */
  predicate Priced(a: MangoAccount, g: MangoGroup, c: MangoCache)
    requires Shaped(a, g, c)
  {
    forall i :: 0 <= i < g.numOracles && a.HasOpenOrders(i) ==> c.prices[i] != 0
  }

  /** The spot position of market i, raw, and what its orders add to the quote currency. */
  function Spot(a: MangoAccount, g: MangoGroup, c: MangoCache, i: nat, toDouble: ToDouble): Scenario
    requires Shaped(a, g, c) && i < MAX_PAIRS && (a.HasOpenOrders(i) ==> c.prices[i] != 0)
  {
    var baseNet := a.Net(c.rootBanks[i], i);
    if a.HasOpenOrders(i) then SpotWorst(baseNet, c.prices[i], a.OpenOrders(i), toDouble) else Scenario(baseNet, 0)
  }

  /** The perp position of market i, raw, and what it adds to the quote currency. */
  function Perp(a: MangoAccount, g: MangoGroup, c: MangoCache, i: nat): Scenario
    requires Shaped(a, g, c) && i < MAX_PAIRS
  {
    if !PublicKeys.IsEmpty(g.perpMarkets[i].perpMarket) then
      var s := PerpWorst(a.perpAccounts[i], g.perpMarkets[i], c.perpMarkets[i], c.prices[i]);
      Scenario(FromInt(s.base), s.quote)
    else Scenario(0, 0)
  }

  function Quote(a: MangoAccount, g: MangoGroup, c: MangoCache, n: nat, toDouble: ToDouble): int
    requires Shaped(a, g, c) && Priced(a, g, c) && n <= g.numOracles
  {
    if n == 0 then a.Net(c.rootBanks[QUOTE_INDEX], QUOTE_INDEX) else
      Quote(a, g, c, n - 1, toDouble) + Spot(a, g, c, n - 1, toDouble).quote + Perp(a, g, c, n - 1).quote
  }

  datatype Components = Components(spot: seq<int>, perps: seq<int>, quote: int)

  function ComponentsOf(a: MangoAccount, g: MangoGroup, c: MangoCache, toDouble: ToDouble): (r: Components)
    requires Shaped(a, g, c) && Priced(a, g, c)
    ensures |r.spot| == |r.perps| == g.numOracles
  {
    Components(seq(g.numOracles, i requires 0 <= i < g.numOracles => Spot(a, g, c, i, toDouble).base),
               seq(g.numOracles, i requires 0 <= i < g.numOracles => Perp(a, g, c, i).base),
               Quote(a, g, c, g.numOracles, toDouble))
  }

  datatype Outcome<T> = Ok(value: T) | DivideByZero

  /** The spot part of the loop body. */
  method EvaluateSpot(a: MangoAccount, g: MangoGroup, c: MangoCache, i: nat, toDouble: ToDouble)
    returns (spot: int, quote: int)
    requires Shaped(a, g, c) && i < MAX_PAIRS && (a.HasOpenOrders(i) ==> c.prices[i] != 0)
    ensures Scenario(spot, quote) == Spot(a, g, c, i, toDouble)
  {
    hide Mul, Divided, FromInt, AbsReal, Base58.Encoded;
    var price := c.prices[i];
    var baseNet := a.Net(c.rootBanks[i], i);
    spot, quote := baseNet, 0;
    if a.HasOpenOrders(i) {
      var (quoteFree, quoteLocked, baseFree, baseLocked) := SplitOpenOrders(a.OpenOrders(i));
      var bidsBaseNet := baseNet + Divided(FromInt(quoteLocked), price) + FromInt(baseFree) + FromInt(baseLocked);
      var asksBaseNet := baseNet + FromInt(baseFree);
      if AbsReal(toDouble(bidsBaseNet)) > AbsReal(toDouble(asksBaseNet)) {
        spot := bidsBaseNet;
        quote := quote + FromInt(quoteFree);
      } else {
        spot := asksBaseNet;
        quote := quote + (Mul(FromInt(baseLocked), price) + FromInt(quoteFree) + FromInt(quoteLocked));
      }
    }
  }

  /** The perp part of the loop body. */
  method EvaluatePerp(a: MangoAccount, g: MangoGroup, c: MangoCache, i: nat) returns (perp: int, quote: int)
    requires Shaped(a, g, c) && i < MAX_PAIRS
    ensures Scenario(perp, quote) == Perp(a, g, c, i)
  {
    hide Mul, QuotePosition, PublicKeys.IsEmpty;
    var price, market := c.prices[i], g.perpMarkets[i];
    perp, quote := 0, 0;
    if !PublicKeys.IsEmpty(market.perpMarket) {
      var perpAccount, perpCache := a.perpAccounts[i], c.perpMarkets[i];
      var takerQuote := perpAccount.takerQuote * market.quoteLotSize;
      var basePos := (perpAccount.basePosition + perpAccount.takerBase) * market.baseLotSize;
      var bidsQuantity := perpAccount.bidsQuantity * market.baseLotSize;
      var asksQuantity := perpAccount.asksQuantity * market.baseLotSize;
      var bidsBaseNet := basePos + bidsQuantity;
      var asksBaseNet := basePos - asksQuantity;
      if Abs(bidsBaseNet) > Abs(asksBaseNet) {
        quote := QuotePosition(perpAccount, perpCache) + FromInt(takerQuote) - Mul(FromInt(bidsQuantity), price);
        perp := FromInt(bidsBaseNet);
      } else {
        quote := QuotePosition(perpAccount, perpCache) + FromInt(takerQuote) + Mul(FromInt(asksQuantity), price);
        perp := FromInt(asksBaseNet);
      }
    }
  }

  method GetHealthComponents(a: MangoAccount, g: MangoGroup, c: MangoCache, toDouble: ToDouble)
    returns (r: Outcome<Components>)
    requires Shaped(a, g, c)
    ensures r.Ok? <==> Priced(a, g, c)
    ensures r.Ok? ==> r.value == ComponentsOf(a, g, c, toDouble)
  {
    hide Spot, Perp, Mul, Base58.Encoded;
    var spot := seq(g.numOracles, _ => 0);
    var perps := seq(g.numOracles, _ => 0);
    var quote := a.Net(c.rootBanks[QUOTE_INDEX], QUOTE_INDEX);
    var i := 0;
    while i < g.numOracles
      invariant 0 <= i <= g.numOracles == |spot| == |perps|
      invariant forall k :: 0 <= k < i && a.HasOpenOrders(k) ==> c.prices[k] != 0
      invariant forall k :: 0 <= k < i ==> spot[k] == Spot(a, g, c, k, toDouble).base
      invariant forall k :: 0 <= k < i ==> perps[k] == Perp(a, g, c, k).base
      invariant Priced(a, g, c) ==> quote == Quote(a, g, c, i, toDouble)
    {
      if a.HasOpenOrders(i) && c.prices[i] == 0 {
        return Outcome.DivideByZero;
      }
      var spotBase, spotQuote := EvaluateSpot(a, g, c, i, toDouble);
      spot := spot[i := spotBase];
      quote := quote + spotQuote;
      var perpBase, perpQuote := EvaluatePerp(a, g, c, i);
      perps := perps[i := perpBase];
      quote := quote + perpQuote;
      i := i + 1;
    }
    return Ok(Components(spot, perps, quote));
  }

  // ----- Health -----

  /** What a position adds to the health. */
  function HealthTerm(base: int, price: int, weights: (int, int)): int {
    Mul(Mul(base, price), if base > 0 then weights.0 else weights.1)
  }

  function Health(g: MangoGroup, c: MangoCache, k: Components, healthType: HealthType, n: nat): int
    requires g.Valid() && c.Valid() && n <= g.numOracles == |k.spot| == |k.perps|
  {
    if n == 0 then k.quote else
      Health(g, c, k, healthType, n - 1)
      + HealthTerm(k.spot[n - 1], c.prices[n - 1], Weights(g.spotMarkets[n - 1], healthType))
      + HealthTerm(k.perps[n - 1], c.prices[n - 1], Weights(g.perpMarkets[n - 1].weights, healthType))
  }

  method GetHealthFromComponents(g: MangoGroup, c: MangoCache, k: Components, healthType: HealthType) returns (health: int)
    requires g.Valid() && c.Valid() && g.numOracles == |k.spot| == |k.perps|
    ensures health == Health(g, c, k, healthType, g.numOracles)
  {
    hide Mul;
    health := k.quote;
    var i := 0;
    while i < g.numOracles
      invariant 0 <= i <= g.numOracles
      invariant health == Health(g, c, k, healthType, i)
    {
      var (spotAssetWeight, spotLiabWeight) := Weights(g.spotMarkets[i], healthType);
      var (perpAssetWeight, perpLiabWeight) := Weights(g.perpMarkets[i].weights, healthType);
      var price := c.prices[i];
      var spotHealth := Mul(Mul(k.spot[i], price), if k.spot[i] > 0 then spotAssetWeight else spotLiabWeight);
      var perpHealth := Mul(Mul(k.perps[i], price), if k.perps[i] > 0 then perpAssetWeight else perpLiabWeight);
      health := health + spotHealth;
      health := health + perpHealth;
      i := i + 1;
    }
  }

  /** What a position adds to the assets and to the liabilities. */
  function AssetTerm(base: int, price: int, weights: (int, int)): int {
    if base > 0 then Mul(Mul(base, price), weights.0) else 0
  }

  function LiabTerm(base: int, price: int, weights: (int, int)): int {
    if base > 0 then 0 else Mul(Mul(Mul(base, FromInt(-1)), price), weights.1)
  }

  function Assets(g: MangoGroup, c: MangoCache, k: Components, healthType: HealthType, n: nat): int
    requires g.Valid() && c.Valid() && n <= g.numOracles == |k.spot| == |k.perps|
  {
    if n == 0 then (if k.quote > 0 then k.quote else 0) else
      Assets(g, c, k, healthType, n - 1)
      + AssetTerm(k.spot[n - 1], c.prices[n - 1], Weights(g.spotMarkets[n - 1], healthType))
      + AssetTerm(k.perps[n - 1], c.prices[n - 1], Weights(g.perpMarkets[n - 1].weights, healthType))
  }

  function Liabs(g: MangoGroup, c: MangoCache, k: Components, healthType: HealthType, n: nat): int
    requires g.Valid() && c.Valid() && n <= g.numOracles == |k.spot| == |k.perps|
  {
    if n == 0 then (if k.quote > 0 then 0 else Mul(k.quote, FromInt(-1))) else
      Liabs(g, c, k, healthType, n - 1)
      + LiabTerm(k.spot[n - 1], c.prices[n - 1], Weights(g.spotMarkets[n - 1], healthType))
      + LiabTerm(k.perps[n - 1], c.prices[n - 1], Weights(g.perpMarkets[n - 1].weights, healthType))
  }

  method GetWeightedAssetsLiabsVals(g: MangoGroup, c: MangoCache, k: Components, healthType: HealthType)
    returns (assets: int, liabs: int)
    requires g.Valid() && c.Valid() && g.numOracles == |k.spot| == |k.perps|
    ensures assets == Assets(g, c, k, healthType, g.numOracles)
    ensures liabs == Liabs(g, c, k, healthType, g.numOracles)
  {
    hide Mul, FromInt;
    assets, liabs := 0, 0;
    if k.quote > 0 {
      assets := assets + k.quote;
    } else {
      liabs := liabs + Mul(k.quote, FromInt(-1));
    }
    var i := 0;
    while i < g.numOracles
      invariant 0 <= i <= g.numOracles
      invariant assets == Assets(g, c, k, healthType, i) && liabs == Liabs(g, c, k, healthType, i)
    {
      var (spotAssetWeight, spotLiabWeight) := Weights(g.spotMarkets[i], healthType);
      var (perpAssetWeight, perpLiabWeight) := Weights(g.perpMarkets[i].weights, healthType);
      var price := c.prices[i];
      if k.spot[i] > 0 {
        assets := assets + Mul(Mul(k.spot[i], price), spotAssetWeight);
      } else {
        liabs := liabs + Mul(Mul(Mul(k.spot[i], FromInt(-1)), price), spotLiabWeight);
      }
      if k.perps[i] > 0 {
        assets := assets + Mul(Mul(k.perps[i], price), perpAssetWeight);
      } else {
        liabs := liabs + Mul(Mul(Mul(k.perps[i], FromInt(-1)), price), perpLiabWeight);
      }
      i := i + 1;
    }
  }
}
