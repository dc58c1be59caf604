/** Laws of the health computations, exact in rounded-down fixed point. */
module HealthLaws {
  import opened Fixed
  import opened Mango
  import opened MangoHealth
  import opened Numerals
  import Base58
  import PublicKeys
  import Serum

  // ----- Products -----

  /** The raw size of a weight in whole units, rounded up. */
  function Ceil(w: int): int {
    -(-w / 0x1_0000_0000_0000)
  }

  lemma CeilIsCeil(w: int)
    ensures (Ceil(w) - 1) * ONE < w <= Ceil(w) * ONE
  {
  }

  lemma MulWhole(n: int, x: int)
    ensures Mul(FromInt(n), x) == n * x && Mul(x, FromInt(n)) == n * x
  {
    assert FromInt(n) * x == (n * x) * ONE && x * FromInt(n) == (n * x) * ONE;
    MulUnique(FromInt(n), x, n * x);
    MulUnique(x, FromInt(n), n * x);
  }

  lemma Order(v: int, x: int, y: int)
    requires x <= y
    ensures v >= 0 ==> v * x <= v * y
    ensures v <= 0 ==> v * x >= v * y
  {
    if v >= 0 { MulMono(v, x, y); } else { MulMono(-v, x, y); }
  }

  lemma MulSign(base: int, price: int)
    requires price >= 0
    ensures base >= 0 ==> Mul(base, price) >= 0
    ensures base <= 0 ==> Mul(base, price) <= 0
  {
    MulIsFloor(base, price);
    if base >= 0 { Order(price, 0, base); } else { Order(price, base, 0); }
  }

  lemma MulOrder(v: int, x: int, y: int)
    requires x <= y
    ensures v >= 0 ==> Mul(v, x) <= Mul(v, y)
    ensures v <= 0 ==> Mul(v, x) >= Mul(v, y)
  {
    MulIsFloor(v, x);
    MulIsFloor(v, y);
    Order(v, x, y);
  }

  // ----- Two formulations of health -----

  /** The most by which the two formulations differ on one position. */
  function Slack(base: int, weights: (int, int)): int {
    if base > 0 then 0 else Ceil(weights.1) + 1
  }

  lemma TermGap(base: int, price: int, weights: (int, int))
    requires weights.1 >= 0
    ensures 0 <= AssetTerm(base, price, weights) - LiabTerm(base, price, weights) - HealthTerm(base, price, weights)
              <= Slack(base, weights)
  {
    hide Mul;
    if base <= 0 {
      var w := weights.1;
      MulWhole(-1, base);
      var x, y := Mul(base, price), Mul(-base, price);
      MulIsFloor(base, price);
      MulIsFloor(-base, price);
      assert (-base) * price == -(base * price);
      MulIsFloor(x, w);
      MulIsFloor(y, w);
      CeilIsCeil(w);
      OppositeFloors(x, y, w);
    }
  }

  lemma OppositeFloors(x: int, y: int, w: int)
    requires -1 <= x + y <= 0 && w >= 0
    ensures -w <= x * w + y * w <= 0
  {
    assert x * w + y * w == (x + y) * w;
  }

  ghost predicate WeightsNonNegative(g: MangoGroup, healthType: HealthType)
    requires g.Valid()
  {
    forall i :: 0 <= i < MAX_PAIRS ==>
      Weights(g.spotMarkets[i], healthType).1 >= 0 && Weights(g.perpMarkets[i].weights, healthType).1 >= 0
  }

  function TotalSlack(g: MangoGroup, k: Components, healthType: HealthType, n: nat): int
    requires g.Valid() && n <= g.numOracles == |k.spot| == |k.perps|
  {
    if n == 0 then 0 else
      TotalSlack(g, k, healthType, n - 1)
      + Slack(k.spot[n - 1], Weights(g.spotMarkets[n - 1], healthType))
      + Slack(k.perps[n - 1], Weights(g.perpMarkets[n - 1].weights, healthType))
  }

  /** assets - liabs is never below the health, and above it by at most the rounding of the non-positive positions. */
  lemma {:induction false} FormulationsAgree(g: MangoGroup, c: MangoCache, k: Components, healthType: HealthType, n: nat)
    requires g.Valid() && c.Valid() && n <= g.numOracles == |k.spot| == |k.perps|
    requires WeightsNonNegative(g, healthType)
    ensures 0 <= Assets(g, c, k, healthType, n) - Liabs(g, c, k, healthType, n) - Health(g, c, k, healthType, n)
              <= TotalSlack(g, k, healthType, n)
  {
    hide Mul, AssetTerm, LiabTerm, HealthTerm, Slack;
    if n == 0 {
      MulWhole(-1, k.quote);
    } else {
      FormulationsAgree(g, c, k, healthType, n - 1);
      TermGap(k.spot[n - 1], c.prices[n - 1], Weights(g.spotMarkets[n - 1], healthType));
      TermGap(k.perps[n - 1], c.prices[n - 1], Weights(g.perpMarkets[n - 1].weights, healthType));
    }
  }

  // ----- Health and its uses -----

  function HealthOf(a: MangoAccount, g: MangoGroup, c: MangoCache, healthType: HealthType, toDouble: ToDouble): int
    requires Shaped(a, g, c) && Priced(a, g, c)
  {
    Health(g, c, ComponentsOf(a, g, c, toDouble), healthType, g.numOracles)
  }

  method GetHealth(a: MangoAccount, g: MangoGroup, c: MangoCache, healthType: HealthType, toDouble: ToDouble)
    returns (r: Outcome<int>)
    requires Shaped(a, g, c)
    ensures r.Ok? <==> Priced(a, g, c)
    ensures r.Ok? ==> r.value == HealthOf(a, g, c, healthType, toDouble)
  {
    var k := GetHealthComponents(a, g, c, toDouble);
    if k.DivideByZero? {
      return Outcome.DivideByZero;
    }
    var health := GetHealthFromComponents(g, c, k.value, healthType);
    return Ok(health);
  }

  /** ((assets / liabs) - 1) * 100 in 128 bits, or 100 without liabilities */
  function Ratio(assets: int, liabs: int): int {
    if liabs > 0 then Multiplied(Wrapped(Divided(assets, liabs) - FromInt(1)), FromInt(100)) else FromInt(100)
  }

  method GetHealthRatio(a: MangoAccount, g: MangoGroup, c: MangoCache, healthType: HealthType, toDouble: ToDouble)
    returns (r: Outcome<int>)
    requires Shaped(a, g, c)
    ensures r.Ok? <==> Priced(a, g, c)
    ensures r.Ok? ==>
      var k := ComponentsOf(a, g, c, toDouble);
      r.value == Ratio(Assets(g, c, k, healthType, g.numOracles), Liabs(g, c, k, healthType, g.numOracles))
  {
    hide Mul, Multiplied, Wrapped, Divided, FromInt, Priced, Base58.Encoded;
    var k := GetHealthComponents(a, g, c, toDouble);
    if k.DivideByZero? {
      return Outcome.DivideByZero;
    }
    var assets, liabs := GetWeightedAssetsLiabsVals(g, c, k.value, healthType);
    if liabs > 0 {
      return Ok(Multiplied(Wrapped(Divided(assets, liabs) - FromInt(1)), FromInt(100)));
    } else {
      return Ok(FromInt(100));
    }
  }

  /** The largest number whose hundredfold fits 128 bits, and its whole units. */
  const RATIO_LIMIT: int := 0x147_AE14_7AE1_47AE_147A_E147_AE14_7AE1
  const RATIO_UNITS: nat := 0x147_AE14_7AE1_47AE_147A

  /** The ratio is the hundredfold of the quotient less one exactly when that product fits, before anything is cut. */
  lemma RatioIsExact(assets: int, liabs: int)
    requires liabs > 0
    ensures Ratio(assets, liabs) == 100 * (Unwrapped(assets, liabs) - ONE)
            <==> Abs(Unwrapped(assets, liabs) - ONE) <= RATIO_LIMIT
    ensures Ratio(assets, liabs) == Wrapped(100 * (Unwrapped(assets, liabs) - ONE))
  {
    hide Mul, Divided, Unwrapped, Wrapped, Multiplied;
    var x := Unwrapped(assets, liabs) - ONE;
    DividedIs(assets, liabs);
    WrapLeft(Unwrapped(assets, liabs), -ONE);
    MultipliedIsMul(Wrapped(x), FromInt(100));
    MulWhole(100, Wrapped(x));
    var k := WrapDrops(x);
    WrapIgnores(100 * x, 100 * k);
    assert 100 * Wrapped(x) == 100 * x + (100 * k) * U128_LIMIT;
  }

  /** It is that of the true quotient, up to a hundred raw units, exactly when also the division keeps its carry. */
  lemma RatioIsClose(assets: int, liabs: int)
    requires liabs > 0
    ensures Abs(Ratio(assets, liabs) - 100 * (Exact(assets, liabs) - ONE)) <= 100
            <==> Abs(Unwrapped(assets, liabs) - ONE) <= RATIO_LIMIT && !CarryLost(assets, liabs)
  {
    hide Ratio, Unwrapped, Exact, Wrapped, CarryLost;
    RatioIsExact(assets, liabs);
    UnwrappedClose(assets, liabs);
    var k := WrapDrops(100 * (Unwrapped(assets, liabs) - ONE));
  }

  /** Assets of at most RATIO_UNITS times the liabilities are far enough from the overflow. */
  lemma RatioFits(assets: nat, liabs: nat)
    requires liabs > 0 && Quot(assets, liabs) <= RATIO_UNITS
    ensures Unwrapped(assets, liabs) - ONE <= RATIO_LIMIT
  {
    hide LowBits, Quot, Rem;
    LowBitsAtMostOne(Rem(assets, liabs), liabs);
  }

  /** Even a lossy quotient of at least one is put together as at least one. */
  lemma QuotientAtLeastOne(a: int, b: int)
    requires a >= b > 0
    ensures Unwrapped(a, b) >= ONE
  {
    hide LowBits, Rem;
    assert Quot(a, b) >= 1;
  }

  /**
    A non-negative health means a non-negative health ratio, with no allowance for rounding,
    as long as the product fits, which it does unless the assets exceed the liabilities more
    than RATIO_UNITS times; beyond that the sign is what is left of the product.
   */
  lemma HealthImpliesRatio(g: MangoGroup, c: MangoCache, k: Components, healthType: HealthType)
    requires g.Valid() && c.Valid() && g.numOracles == |k.spot| == |k.perps|
    requires WeightsNonNegative(g, healthType)
    ensures var assets, liabs := Assets(g, c, k, healthType, g.numOracles), Liabs(g, c, k, healthType, g.numOracles);
            Health(g, c, k, healthType, g.numOracles) >= 0 ==>
              if liabs <= 0 then Ratio(assets, liabs) == FromInt(100) else
                var excess := Unwrapped(assets, liabs) - ONE;
                && (0 <= Ratio(assets, liabs) == 100 * excess <==> excess <= RATIO_LIMIT)
                && (Quot(Abs(assets), liabs) <= RATIO_UNITS ==> excess <= RATIO_LIMIT)
                && (Ratio(assets, liabs) >= 0 <==> 100 * excess % 0x1_0000_0000_0000_0000_0000_0000_0000_0000 < I128_LIMIT)
  {
    hide Assets, Liabs, Health, Quot, Divided, Multiplied, Unwrapped;
    var assets, liabs := Assets(g, c, k, healthType, g.numOracles), Liabs(g, c, k, healthType, g.numOracles);
    FormulationsAgree(g, c, k, healthType, g.numOracles);
    if Health(g, c, k, healthType, g.numOracles) >= 0 && liabs > 0 {
      RatioOfExcess(assets, liabs);
    }
  }

  lemma RatioOfExcess(assets: int, liabs: int)
    requires assets >= liabs > 0
    ensures var excess := Unwrapped(assets, liabs) - ONE;
            && (0 <= Ratio(assets, liabs) == 100 * excess <==> excess <= RATIO_LIMIT)
            && (Quot(assets, liabs) <= RATIO_UNITS ==> excess <= RATIO_LIMIT)
            && (Ratio(assets, liabs) >= 0 <==> 100 * excess % 0x1_0000_0000_0000_0000_0000_0000_0000_0000 < I128_LIMIT)
  {
    hide Quot, Ratio, Unwrapped;
    QuotientAtLeastOne(assets, liabs);
    RatioIsExact(assets, liabs);
    if Quot(assets, liabs) <= RATIO_UNITS {
      RatioFits(assets, liabs);
    }
  }

  /** One unit of price and weight everywhere, a deposit, and a quote debt of one raw unit. */
  lemma DustDebt(deposit: int) returns (g: MangoGroup, c: MangoCache, k: Components)
    requires deposit > 0
    ensures g.Valid() && c.Valid() && g.numOracles == |k.spot| == |k.perps| == 1 && WeightsNonNegative(g, Init)
    ensures Health(g, c, k, Init, 1) >= 0
    ensures Assets(g, c, k, Init, 1) == deposit && Liabs(g, c, k, Init, 1) == 1
  {
    hide Mul;
    var weights := MarketWeights(ONE, ONE, ONE, ONE);
    var key: PublicKeys.Key := seq(PublicKeys.SIZE, _ => 0);
    g := MangoGroup(1, seq(MAX_PAIRS, _ => weights), seq(MAX_PAIRS, _ => PerpMarketInfo(key, weights, 1, 1)));
    c := MangoCache(seq(MAX_PAIRS, _ => ONE), seq(MAX_TOKENS, _ => RootBankCache(ONE, ONE)),
                    seq(MAX_PAIRS, _ => PerpMarketCache(0, 0)));
    k := Components([deposit], [0], -1);
    assert FromInt(1) == ONE && FromInt(0) == 0;
    MulWhole(1, deposit);
    MulWhole(1, 0);
    MulWhole(-1, 0);
    MulWhole(-1, -1);
  }

  /** With a deposit of 2^25 units the health is not negative, but the product overflows and the ratio is negative. */
  lemma RatioOverflowWitness() returns (g: MangoGroup, c: MangoCache, k: Components)
    ensures g.Valid() && c.Valid() && g.numOracles == |k.spot| == |k.perps| == 1 && WeightsNonNegative(g, Init)
    ensures Health(g, c, k, Init, 1) >= 0 && Ratio(Assets(g, c, k, Init, 1), Liabs(g, c, k, Init, 1)) < 0
  {
    hide Health, Assets, Liabs, Mul, Ratio, Unwrapped;
    var deposit := 0x200_0000_0000_0000_0000;
    g, c, k := DustDebt(deposit);
    RatioIsExact(deposit, 1);
    UnwrappedWhole(deposit);
  }

  /** With one of 2^32 units the quotient itself overflows, to zero, and the ratio is -100. */
  lemma QuotientOverflowWitness() returns (g: MangoGroup, c: MangoCache, k: Components)
    ensures g.Valid() && c.Valid() && g.numOracles == |k.spot| == |k.perps| == 1 && WeightsNonNegative(g, Init)
    ensures Health(g, c, k, Init, 1) >= 0 && Ratio(Assets(g, c, k, Init, 1), Liabs(g, c, k, Init, 1)) == FromInt(-100)
  {
    hide Health, Assets, Liabs, Mul, Ratio, Unwrapped;
    g, c, k := DustDebt(LOW_LIMIT);
    RatioIsExact(LOW_LIMIT, 1);
    UnwrappedWhole(LOW_LIMIT);
  }

  lemma UnwrappedWhole(a: nat)
    ensures Unwrapped(a, 1) == a * ONE
  {
    hide Quot, Rem;
    DivisionUnique(a, 1, a, 0);
    DivisionUnique(0, 1, 0, 0);
  }

  // ----- Liquidation -----

  /** Init weights are no more favourable than Maint weights. */
  predicate Stricter(w: MarketWeights) {
    w.initAsset <= w.maintAsset && w.initLiab >= w.maintLiab
  }

  ghost predicate InitIsStricter(g: MangoGroup)
    requires g.Valid()
  {
    forall i :: 0 <= i < MAX_PAIRS ==> Stricter(g.spotMarkets[i]) && Stricter(g.perpMarkets[i].weights)
  }

  ghost predicate PricesNonNegative(c: MangoCache) {
    forall i :: 0 <= i < |c.prices| ==> c.prices[i] >= 0
  }

  lemma StricterTerm(base: int, price: int, w: MarketWeights)
    requires price >= 0 && Stricter(w)
    ensures HealthTerm(base, price, Weights(w, Init)) <= HealthTerm(base, price, Weights(w, Maint))
  {
    hide Mul;
    MulSign(base, price);
    MulOrder(Mul(base, price), w.initAsset, w.maintAsset);
    MulOrder(Mul(base, price), w.maintLiab, w.initLiab);
  }

  lemma {:induction false} InitAtMostMaint(g: MangoGroup, c: MangoCache, k: Components, n: nat)
    requires g.Valid() && c.Valid() && n <= g.numOracles == |k.spot| == |k.perps|
    requires InitIsStricter(g) && PricesNonNegative(c)
    ensures Health(g, c, k, Init, n) <= Health(g, c, k, Maint, n)
  {
    hide HealthTerm, Weights;
    if n > 0 {
      InitAtMostMaint(g, c, k, n - 1);
      StricterTerm(k.spot[n - 1], c.prices[n - 1], g.spotMarkets[n - 1]);
      StricterTerm(k.perps[n - 1], c.prices[n - 1], g.perpMarkets[n - 1].weights);
    }
  }

  /** isLiquidatable: an account in liquidation stays liquidatable until its Init health recovers. */
  method IsLiquidatable(a: MangoAccount, g: MangoGroup, c: MangoCache, toDouble: ToDouble) returns (r: Outcome<bool>)
    requires Shaped(a, g, c)
    ensures r.Ok? <==> Priced(a, g, c)
    ensures r.Ok? && InitIsStricter(g) && PricesNonNegative(c) ==>
      r.value == (HealthOf(a, g, c, if a.beingLiquidated then Init else Maint, toDouble) < 0)
    ensures r.Ok? ==> r.value == ((a.beingLiquidated && HealthOf(a, g, c, Init, toDouble) < 0)
                                  || HealthOf(a, g, c, Maint, toDouble) < 0)
  {
    var initHealth := GetHealth(a, g, c, Init, toDouble);
    var maintHealth := GetHealth(a, g, c, Maint, toDouble);
    if initHealth.DivideByZero? || maintHealth.DivideByZero? {
      return Outcome.DivideByZero;
    }
    if InitIsStricter(g) && PricesNonNegative(c) {
      InitAtMostMaint(g, c, ComponentsOf(a, g, c, toDouble), g.numOracles);
    }
    return Ok((a.beingLiquidated && initHealth.value < 0) || maintHealth.value < 0);
  }

  // ----- Worst-case scenarios -----

  /** What a perp scenario, in base units, adds to the health. */
  function Contribution(s: Scenario, price: int, weights: (int, int)): int {
    HealthTerm(FromInt(s.base), price, weights) + s.quote
  }

  /** The value of a scenario at the price, without weights. */
  function MarketValue(s: Scenario, price: int): int {
    s.base * price + s.quote
  }

  /** Both perp scenarios have the value of the position as it stands. */
  lemma ScenariosShareValue(p: PerpAccountInfo, m: PerpMarketInfo, c: PerpMarketCache, price: int)
    ensures MarketValue(PerpBids(p, m, c, price), price) == MarketValue(PerpAsks(p, m, c, price), price)
  {
    hide Mul, QuotePosition;
    var basePos, bids, asks :=
      (p.basePosition + p.takerBase) * m.baseLotSize, p.bidsQuantity * m.baseLotSize, p.asksQuantity * m.baseLotSize;
    MulWhole(bids, price);
    MulWhole(asks, price);
    assert (basePos + bids) * price == basePos * price + bids * price;
    assert (basePos - asks) * price == basePos * price - asks * price;
  }

  /** With symmetric weights, a scenario costs its value's share delta, rounded up. */
  lemma ContributionIs(s: Scenario, price: int, delta: int)
    requires price >= 0
    ensures Contribution(s, price, (ONE - delta, ONE + delta))
         == MarketValue(s, price) + Mul(-Abs(s.base * price), delta)
  {
    hide Mul;
    MulWhole(s.base, price);
    if s.base > 0 { Order(price, 0, s.base); } else { Order(price, s.base, 0); }
    WeightedValue(s.base * price, delta);
  }

  /** A value weighted with 1 - delta or 1 + delta is that value less the rounded-up share delta of its size. */
  lemma WeightedValue(v: int, delta: int)
    ensures v >= 0 ==> Mul(v, ONE - delta) == v + Mul(-Abs(v), delta)
    ensures v <= 0 ==> Mul(v, ONE + delta) == v + Mul(-Abs(v), delta)
  {
    hide Mul;
    var u := -Abs(v);
    MulIsFloor(u, delta);
    if v >= 0 {
      assert v * (ONE - delta) == v * ONE + u * delta;
      MulUnique(v, ONE - delta, v + Mul(u, delta));
    }
    if v <= 0 {
      assert v * (ONE + delta) == v * ONE + u * delta;
      MulUnique(v, ONE + delta, v + Mul(u, delta));
    }
  }

  /** The scenario that is chosen by position size has the smaller contribution of the two. */
  lemma PerpWorstIsWorst(p: PerpAccountInfo, m: PerpMarketInfo, c: PerpMarketCache, price: int, delta: int)
    requires price >= 0 && delta >= 0
    ensures var w := (ONE - delta, ONE + delta);
            var worst := Contribution(PerpWorst(p, m, c, price), price, w);
            worst <= Contribution(PerpBids(p, m, c, price), price, w)
            && worst <= Contribution(PerpAsks(p, m, c, price), price, w)
  {
    hide Mul, PerpBids, PerpAsks, Contribution, MarketValue;
    var bids, asks := PerpBids(p, m, c, price), PerpAsks(p, m, c, price);
    ScenariosShareValue(p, m, c, price);
    ContributionIs(bids, price, delta);
    ContributionIs(asks, price, delta);
    if Abs(bids.base) > Abs(asks.base) {
      LargerCostsMore(bids.base, asks.base, price, delta);
    } else {
      LargerCostsMore(asks.base, bids.base, price, delta);
    }
  }

  lemma LargerCostsMore(x: int, y: int, price: int, delta: int)
    requires price >= 0 && delta >= 0 && Abs(x) >= Abs(y)
    ensures Mul(-Abs(x * price), delta) <= Mul(-Abs(y * price), delta)
  {
    hide Mul;
    AbsProduct(x, price);
    AbsProduct(y, price);
    Order(price, Abs(y), Abs(x));
    MulIsFloor(-Abs(x * price), delta);
    MulIsFloor(-Abs(y * price), delta);
    Order(delta, -Abs(x * price), -Abs(y * price));
  }

  lemma AbsProduct(x: int, price: int)
    requires price >= 0
    ensures Abs(x * price) == Abs(x) * price
  {
    if x >= 0 { Order(price, 0, x); } else { Order(price, x, 0); assert (-x) * price == -(x * price); }
  }

  lemma MulShift(x: int, n: int, p: int)
    ensures Mul(x + FromInt(n), p) == Mul(x, p) + n * p
  {
    MulIsFloor(x, p);
    assert (x + n * ONE) * p == x * p + (n * p) * ONE;
    MulUnique(x + FromInt(n), p, Mul(x, p) + n * p);
  }

  /** Raw value of a spot scenario, whose position is raw. */
  function SpotValue(s: Scenario, price: int): int {
    Mul(s.base, price) + s.quote
  }

  /** How far the computed quotient of the locked quote may be from the exact one. */
  function DivisionError(quoteLocked: int, price: int): int
    requires price != 0
  {
    if Rem(Abs(FromInt(quoteLocked)), Abs(price)) < LOW_LIMIT then 0 else 1
  }

  /**
    Executing all asks instead of all bids changes the value of a spot account by less
    than one price unit, upwards, as long as the division is exact; a lossy one adds a
    price unit either way.  A quotient that does not fit and a lost carry are the cases
    outside these bounds.
   */
  lemma SpotValueConserved(baseNet: int, price: int, o: Serum.OpenOrders)
    requires o.Valid() && price > 0
    ensures var change := SpotValue(SpotAsks(baseNet, price, o), price) - SpotValue(SpotBids(baseNet, price, o), price);
            var error := DivisionError(o.quoteTokenTotal - o.quoteTokenFree, price);
            -error * Ceil(price) <= change <= (1 + error) * Ceil(price)
            <==> var locked := FromInt(o.quoteTokenTotal - o.quoteTokenFree); QuotientFits(locked, price) && !CarryLost(locked, price)
  {
    hide Mul, Divided, DivisionError, CarryLost, Ceil, SpotBids, SpotAsks, SpotValue, QuotientFits;
    var quoteLocked := o.quoteTokenTotal - o.quoteTokenFree;
    var q, b := Divided(FromInt(quoteLocked), price), baseNet + FromInt(o.baseTokenFree);
    var error := DivisionError(quoteLocked, price);
    SpotChange(baseNet, price, o);
    if QuotientFits(FromInt(quoteLocked), price) && !CarryLost(FromInt(quoteLocked), price) {
      QuotientBounds(quoteLocked, price);
      BoughtValue(b, q, quoteLocked, price, error);
    } else {
      var gap := LostQuotient(quoteLocked, price);
      LostValue(b, q, quoteLocked, price, gap);
    }
  }

  /** What the scenarios differ by: the locked quote against the base that it buys. */
  lemma SpotChange(baseNet: int, price: int, o: Serum.OpenOrders)
    requires o.Valid() && price > 0
    ensures var quoteLocked := o.quoteTokenTotal - o.quoteTokenFree;
            var q, b := Divided(FromInt(quoteLocked), price), baseNet + FromInt(o.baseTokenFree);
            SpotValue(SpotAsks(baseNet, price, o), price) - SpotValue(SpotBids(baseNet, price, o), price)
              == Mul(b, price) + FromInt(quoteLocked) - Mul(b + q, price)
  {
    hide Mul, Divided;
    var quoteLocked, baseLocked := o.quoteTokenTotal - o.quoteTokenFree, o.baseTokenTotal - o.baseTokenFree;
    var q, b := Divided(FromInt(quoteLocked), price), baseNet + FromInt(o.baseTokenFree);
    MulShift(b + q, baseLocked, price);
    MulWhole(baseLocked, price);
    assert baseNet + q + FromInt(o.baseTokenFree) + FromInt(baseLocked) == b + q + FromInt(baseLocked);
  }

  /** How much a quotient misses that lost its high bits or its carry. */
  lemma LostQuotient(n: nat, price: int) returns (gap: int)
    requires price > 0 && !(QuotientFits(FromInt(n), price) && !CarryLost(FromInt(n), price))
    ensures (Divided(FromInt(n), price) + gap) * price <= n * ONE * ONE
    ensures (gap - 2) * price >= 3 * ONE && 0 <= DivisionError(n, price) <= 1
  {
    hide Quot, Rem, Divided, Computed, CarryLost, Wrapped;
    var a := FromInt(n);
    DividedIs(a, price);
    UnwrappedClose(a, price);
    if QuotientFits(a, price) {
      CarryLostCosts(a, price);
      gap := ONE - 1;
      MulMono(gap - 2, LOW_LIMIT, price);
    } else {
      var k := WrapDrops(Unwrapped(a, price));
      gap := U128_LIMIT - ONE;
      MulMono(gap - 2, 1, price);
    }
    DivisionEquation(a * ONE, price);
    Order(price, Divided(a, price) + gap, Exact(a, price));
  }

  lemma QuotientBounds(n: nat, price: int)
    requires price > 0 && QuotientFits(FromInt(n), price) && !CarryLost(FromInt(n), price)
    ensures var q, error := Divided(FromInt(n), price), DivisionError(n, price);
            0 <= error <= 1
            && (q - error) * price <= n * ONE * ONE && n * ONE * ONE < (q + error + 1) * price
  {
    hide Divided, CarryLost, Quot, Rem, QuotientFits;
    var q, exact, error := Divided(FromInt(n), price), Exact(FromInt(n), price), DivisionError(n, price);
    if error == 0 {
      DivideExact(FromInt(n), price);
    } else {
      DivideClose(FromInt(n), price);
    }
    DivisionEquation(FromInt(n) * ONE, price);
    Order(price, q - error, exact);
    Order(price, exact + 1, q + error + 1);
    assert (exact + 1) * price == exact * price + price;
  }

  lemma BoughtValue(b: int, q: int, n: int, price: int, error: int)
    requires price > 0 && 0 <= error <= 1
    requires (q - error) * price <= n * ONE * ONE && n * ONE * ONE < (q + error + 1) * price
    ensures -error * Ceil(price) <= Mul(b, price) + FromInt(n) - Mul(b + q, price) <= (1 + error) * Ceil(price)
  {
    hide Mul, Ceil;
    MulIsFloor(b, price);
    MulIsFloor(b + q, price);
    CeilIsCeil(price);
    assert (b + q) * price == b * price + q * price;
    assert (q - error) * price == q * price - error * price;
    assert (q + error + 1) * price == q * price + error * price + price;
    if error == 0 {
      assert error * price == 0;
    } else {
      assert error * price == price;
    }
  }

  /** What is missing is worth more than two price units. */
  lemma LostValue(b: int, q: int, n: int, price: int, gap: int)
    requires price > 0 && (q + gap) * price <= n * ONE * ONE && (gap - 2) * price >= 3 * ONE
    ensures Mul(b, price) + FromInt(n) - Mul(b + q, price) > 2 * Ceil(price) > Ceil(price)
  {
    hide Mul, Ceil;
    MulIsFloor(b, price);
    MulIsFloor(b + q, price);
    CeilIsCeil(price);
    Distribute(b, q, price);
    Distribute(q, gap, price);
    Distribute(gap, -2, price);
  }

  // ----- The worse spot scenario -----

  /** The product, rounded up. */
  function CeilMul(x: int, y: int): int {
    -Mul(-x, y)
  }

  /** Compared as doubles, the larger of two sizes is found up to blur raw units. */
  predicate Resolves(toDouble: ToDouble, x: int, y: int, blur: nat) {
    if AbsReal(toDouble(x)) > AbsReal(toDouble(y)) then Abs(x) + blur >= Abs(y) else Abs(y) + blur >= Abs(x)
  }

  /** What a spot scenario, in raw units, adds to the health. */
  function SpotContribution(s: Scenario, price: int, weights: (int, int)): int {
    HealthTerm(s.base, price, weights) + s.quote
  }

  /** With symmetric weights, a scenario costs its value's share delta, rounded up. */
  lemma SpotContributionIs(s: Scenario, price: int, delta: int)
    requires price >= 0
    ensures SpotContribution(s, price, (ONE - delta, ONE + delta))
         == SpotValue(s, price) - CeilMul(Abs(Mul(s.base, price)), delta)
  {
    hide Mul;
    MulSign(s.base, price);
    WeightedValue(Mul(s.base, price), delta);
  }

  /** Values are ordered like the sizes of their positions, up to the rounding. */
  lemma SizeGap(x: int, y: int, price: int, blur: nat)
    requires price >= 0 && Abs(y) <= Abs(x) + blur
    ensures Abs(Mul(y, price)) <= Abs(Mul(x, price)) + 1 + CeilMul(blur, price)
  {
    hide Mul, Abs;
    SizeOfProduct(x, price);
    SizeOfProduct(y, price);
    CeilMulBound(blur, price);
    Order(price, Abs(y), Abs(x) + blur);
    Distribute(Abs(x), blur, price);
    Units(Abs(Mul(y, price)), Abs(Mul(x, price)), CeilMul(blur, price), Abs(x) * price, blur * price);
  }

  lemma CeilMulBound(x: int, y: int)
    ensures x * y <= CeilMul(x, y) * ONE < x * y + ONE
  {
    hide Mul;
    MulIsFloor(-x, y);
    assert (-x) * y == -(x * y);
  }

  lemma Units(u: int, v: int, k: int, x: int, e: int)
    requires (u - 1) * ONE < x + e && x < (v + 1) * ONE && e <= k * ONE
    ensures u <= v + 1 + k
  {
  }

  lemma SizeOfProduct(x: int, price: int)
    requires price >= 0
    ensures (Abs(Mul(x, price)) - 1) * ONE < Abs(x) * price < (Abs(Mul(x, price)) + 1) * ONE
  {
    hide Mul;
    MulSign(x, price);
    MulIsFloor(x, price);
    AbsProduct(x, price);
    if x >= 0 { Order(price, 0, x); } else { Order(price, x, 0); }
  }

  lemma CeilMulAdds(x: int, y: int, z: int, delta: int)
    requires delta >= 0 && x <= y + z
    ensures CeilMul(x, delta) <= CeilMul(y, delta) + CeilMul(z, delta)
  {
    hide CeilMul;
    CeilMulBound(x, delta);
    CeilMulBound(y, delta);
    CeilMulBound(z, delta);
    Order(delta, x, y + z);
    Distribute(y, z, delta);
  }

  /** What the chosen spot scenario may contribute more than the other: rounding of the value, and of the weighted size. */
  function SpotSlack(o: Serum.OpenOrders, price: int, delta: int, blur: nat): int
    requires price != 0
  {
    (1 + DivisionError(o.quoteTokenTotal - o.quoteTokenFree, price)) * Ceil(price) + CeilMul(1 + CeilMul(blur, price), delta)
  }

  /** Of two scenarios, the one with the larger position costs more, up to the rounding. */
  lemma LargerSpotCostsMore(worst: Scenario, other: Scenario, price: int, delta: int, blur: nat)
    requires price >= 0 && delta >= 0 && Abs(other.base) <= Abs(worst.base) + blur
    ensures var w := (ONE - delta, ONE + delta);
            SpotContribution(worst, price, w) - SpotValue(worst, price)
              <= SpotContribution(other, price, w) - SpotValue(other, price) + CeilMul(1 + CeilMul(blur, price), delta)
  {
    hide Mul, SpotContribution, SpotValue, CeilMul;
    SpotContributionIs(worst, price, delta);
    SpotContributionIs(other, price, delta);
    SizeGap(worst.base, other.base, price, blur);
    CeilMulAdds(Abs(Mul(other.base, price)), Abs(Mul(worst.base, price)), 1 + CeilMul(blur, price), delta);
  }

  /** The spot scenario that is chosen by comparing doubles is the worse one, up to the rounding. */
  lemma SpotWorstIsWorst(baseNet: int, price: int, o: Serum.OpenOrders, toDouble: ToDouble, delta: int, blur: nat)
    requires o.Valid() && price > 0 && delta >= 0
    requires var locked := FromInt(o.quoteTokenTotal - o.quoteTokenFree);
             QuotientFits(locked, price) && !CarryLost(locked, price)
    requires Resolves(toDouble, SpotBids(baseNet, price, o).base, SpotAsks(baseNet, price, o).base, blur)
    ensures var w := (ONE - delta, ONE + delta);
            var worst := SpotContribution(SpotWorst(baseNet, price, o, toDouble), price, w);
            worst <= SpotContribution(SpotBids(baseNet, price, o), price, w) + SpotSlack(o, price, delta, blur)
            && worst <= SpotContribution(SpotAsks(baseNet, price, o), price, w) + SpotSlack(o, price, delta, blur)
  {
    hide Mul, SpotBids, SpotAsks, SpotContribution, SpotValue, CeilMul, Ceil, DivisionError, CarryLost, QuotientFits;
    var bids, asks := SpotBids(baseNet, price, o), SpotAsks(baseNet, price, o);
    var worst := SpotWorst(baseNet, price, o, toDouble);
    SpotValueConserved(baseNet, price, o);
    CeilIsCeil(price);
    ErrorRange(o.quoteTokenTotal - o.quoteTokenFree, price);
    LargerSpotCostsMore(worst, bids, price, delta, blur);
    LargerSpotCostsMore(worst, asks, price, delta, blur);
  }

  /** With doubles that resolve the sizes exactly, the slack is one or two price units and one raw unit. */
  lemma ExactSlack(o: Serum.OpenOrders, price: int, delta: int)
    requires price > 0 && 0 <= delta <= ONE
    ensures SpotSlack(o, price, delta, 0) <= (1 + DivisionError(o.quoteTokenTotal - o.quoteTokenFree, price)) * Ceil(price) + 1
  {
    hide CeilMul, Ceil, DivisionError;
    CeilMulBound(0, price);
    CeilMulBound(1, delta);
  }

  lemma ErrorRange(locked: int, price: int)
    requires price > 0
    ensures 0 <= DivisionError(locked, price) <= 1
  {
  }

  // ----- The worst case of an account -----

  /** The perp position and quote of market i when all its bids, or all its asks, are executed. */
  function PerpIf(a: MangoAccount, g: MangoGroup, c: MangoCache, i: nat, bids: bool): Scenario
    requires Shaped(a, g, c) && i < MAX_PAIRS
  {
    if PublicKeys.IsEmpty(g.perpMarkets[i].perpMarket) then Scenario(0, 0)
    else if bids then PerpBids(a.perpAccounts[i], g.perpMarkets[i], c.perpMarkets[i], c.prices[i])
    else PerpAsks(a.perpAccounts[i], g.perpMarkets[i], c.perpMarkets[i], c.prices[i])
  }

  /** Which spot orders are executed: what getHealthComponents chooses, or all bids, or all asks. */
  datatype Side = Chosen | Bids | Asks

  /** The spot position and quote of market i when that side is executed. */
  function SpotIf(a: MangoAccount, g: MangoGroup, c: MangoCache, i: nat, toDouble: ToDouble, side: Side): Scenario
    requires Shaped(a, g, c) && i < MAX_PAIRS && (a.HasOpenOrders(i) ==> c.prices[i] != 0)
  {
    var baseNet := a.Net(c.rootBanks[i], i);
    if side.Chosen? || !a.HasOpenOrders(i) then Spot(a, g, c, i, toDouble)
    else if side.Bids? then SpotBids(baseNet, c.prices[i], a.OpenOrders(i))
    else SpotAsks(baseNet, c.prices[i], a.OpenOrders(i))
  }

  function QuoteIf(a: MangoAccount, g: MangoGroup, c: MangoCache, n: nat, toDouble: ToDouble, spot: seq<Side>, bids: seq<bool>): int
    requires Shaped(a, g, c) && Priced(a, g, c) && n <= g.numOracles == |spot| == |bids|
  {
    if n == 0 then a.Net(c.rootBanks[QUOTE_INDEX], QUOTE_INDEX) else
      QuoteIf(a, g, c, n - 1, toDouble, spot, bids)
      + SpotIf(a, g, c, n - 1, toDouble, spot[n - 1]).quote + PerpIf(a, g, c, n - 1, bids[n - 1]).quote
  }

  /** The components under a choice of executed side for every spot and every perp market. */
  function ComponentsIf(a: MangoAccount, g: MangoGroup, c: MangoCache, toDouble: ToDouble, spot: seq<Side>, bids: seq<bool>): (r: Components)
    requires Shaped(a, g, c) && Priced(a, g, c) && g.numOracles == |spot| == |bids|
    ensures |r.spot| == |r.perps| == g.numOracles
  {
    Components(seq(g.numOracles, i requires 0 <= i < g.numOracles => SpotIf(a, g, c, i, toDouble, spot[i]).base),
               seq(g.numOracles, i requires 0 <= i < g.numOracles => FromInt(PerpIf(a, g, c, i, bids[i]).base)),
               QuoteIf(a, g, c, g.numOracles, toDouble, spot, bids))
  }

  /** The market can tell its spot scenarios apart: symmetric weights, no lost carry, and doubles that resolve the sizes. */
  predicate SpotComparable(a: MangoAccount, g: MangoGroup, c: MangoCache, healthType: HealthType, i: nat, toDouble: ToDouble, blur: nat)
    requires Shaped(a, g, c) && i < MAX_PAIRS && a.HasOpenOrders(i)
  {
    var o, price, w := a.OpenOrders(i), c.prices[i], Weights(g.spotMarkets[i], healthType);
    var locked, baseNet := FromInt(o.quoteTokenTotal - o.quoteTokenFree), a.Net(c.rootBanks[i], i);
    && o.Valid() && price > 0 && w.0 <= ONE && w.1 == ONE + (ONE - w.0)
    && QuotientFits(locked, price) && !CarryLost(locked, price)
    && Resolves(toDouble, SpotBids(baseNet, price, o).base, SpotAsks(baseNet, price, o).base, blur)
  }

  function SpotSlackOf(a: MangoAccount, g: MangoGroup, c: MangoCache, healthType: HealthType, i: nat, side: Side, blur: nat): int
    requires Shaped(a, g, c) && i < MAX_PAIRS && (a.HasOpenOrders(i) ==> c.prices[i] != 0)
  {
    if side.Chosen? || !a.HasOpenOrders(i) then 0 else
      SpotSlack(a.OpenOrders(i), c.prices[i], ONE - Weights(g.spotMarkets[i], healthType).0, blur)
  }

  function TotalSpotSlack(a: MangoAccount, g: MangoGroup, c: MangoCache, healthType: HealthType, n: nat, spot: seq<Side>, blur: nat): int
    requires Shaped(a, g, c) && Priced(a, g, c) && n <= g.numOracles == |spot|
  {
    if n == 0 then 0 else
      TotalSpotSlack(a, g, c, healthType, n - 1, spot, blur) + SpotSlackOf(a, g, c, healthType, n - 1, spot[n - 1], blur)
  }

  /** Asset and liability weights of every perp market lie equally far from one. */
  ghost predicate SymmetricPerps(g: MangoGroup, healthType: HealthType)
    requires g.Valid()
  {
    forall i :: 0 <= i < MAX_PAIRS ==>
      var w := Weights(g.perpMarkets[i].weights, healthType); w.0 <= ONE && w.1 == ONE + (ONE - w.0)
  }

  lemma MarketWorst(a: MangoAccount, g: MangoGroup, c: MangoCache, healthType: HealthType, i: nat, bids: bool)
    requires Shaped(a, g, c) && i < MAX_PAIRS && SymmetricPerps(g, healthType) && c.prices[i] >= 0
    ensures var w, chosen := Weights(g.perpMarkets[i].weights, healthType), Perp(a, g, c, i);
            HealthTerm(chosen.base, c.prices[i], w) + chosen.quote
              <= Contribution(PerpIf(a, g, c, i, bids), c.prices[i], w)
  {
    hide Mul, PerpBids, PerpAsks, HealthTerm, PublicKeys.IsEmpty;
    var w := Weights(g.perpMarkets[i].weights, healthType);
    if !PublicKeys.IsEmpty(g.perpMarkets[i].perpMarket) {
      PerpWorstIsWorst(a.perpAccounts[i], g.perpMarkets[i], c.perpMarkets[i], c.prices[i], ONE - w.0);
    }
  }

  lemma SpotMarketWorst(a: MangoAccount, g: MangoGroup, c: MangoCache, healthType: HealthType, i: nat,
      toDouble: ToDouble, side: Side, blur: nat)
    requires Shaped(a, g, c) && i < MAX_PAIRS && (a.HasOpenOrders(i) ==> c.prices[i] != 0)
    requires a.HasOpenOrders(i) && !side.Chosen? ==> SpotComparable(a, g, c, healthType, i, toDouble, blur)
    ensures var w := Weights(g.spotMarkets[i], healthType);
            SpotContribution(Spot(a, g, c, i, toDouble), c.prices[i], w)
              <= SpotContribution(SpotIf(a, g, c, i, toDouble, side), c.prices[i], w) + SpotSlackOf(a, g, c, healthType, i, side, blur)
  {
    hide Mul, Base58.Encoded, SpotBids, SpotAsks, SpotWorst, SpotContribution, SpotSlack, Resolves, CarryLost, QuotientFits, Weights, FromInt;
    if a.HasOpenOrders(i) && !side.Chosen? {
      var w := Weights(g.spotMarkets[i], healthType);
      SpotWorstIsWorst(a.Net(c.rootBanks[i], i), c.prices[i], a.OpenOrders(i), toDouble, ONE - w.0, blur);
      assert w == (ONE - (ONE - w.0), ONE + (ONE - w.0));
    }
  }

  ghost predicate SpotsComparable(a: MangoAccount, g: MangoGroup, c: MangoCache, healthType: HealthType,
      toDouble: ToDouble, spot: seq<Side>, blur: nat)
    requires Shaped(a, g, c) && g.numOracles == |spot|
  {
    forall i :: 0 <= i < g.numOracles && a.HasOpenOrders(i) && !spot[i].Chosen? ==>
      SpotComparable(a, g, c, healthType, i, toDouble, blur)
  }

  lemma {:induction false} WorstUpTo(a: MangoAccount, g: MangoGroup, c: MangoCache, healthType: HealthType,
      toDouble: ToDouble, spot: seq<Side>, bids: seq<bool>, blur: nat, n: nat)
    requires Shaped(a, g, c) && Priced(a, g, c) && n <= g.numOracles == |spot| == |bids|
    requires SymmetricPerps(g, healthType) && PricesNonNegative(c)
    requires SpotsComparable(a, g, c, healthType, toDouble, spot, blur)
    ensures var chosen, other := ComponentsOf(a, g, c, toDouble), ComponentsIf(a, g, c, toDouble, spot, bids);
            Health(g, c, chosen, healthType, n) - chosen.quote + Quote(a, g, c, n, toDouble)
              <= Health(g, c, other, healthType, n) - other.quote + QuoteIf(a, g, c, n, toDouble, spot, bids)
                 + TotalSpotSlack(a, g, c, healthType, n, spot, blur)
  {
    hide Mul, HealthTerm, Spot, SpotIf, Perp, PerpIf, Weights, SymmetricPerps, SpotComparable, SpotSlackOf, Base58.Encoded;
    if n > 0 {
      WorstUpTo(a, g, c, healthType, toDouble, spot, bids, blur, n - 1);
      MarketWorst(a, g, c, healthType, n - 1, bids[n - 1]);
      SpotMarketWorst(a, g, c, healthType, n - 1, toDouble, spot[n - 1], blur);
    }
  }

  /**
    With symmetric perp weights, no execution of the perp orders leads to a lower health
    than the one reported, and none of the orders of comparable spot markets to one that
    is lower by more than their rounding.
   */
  lemma HealthIsWorstCase(a: MangoAccount, g: MangoGroup, c: MangoCache, healthType: HealthType,
      toDouble: ToDouble, spot: seq<Side>, bids: seq<bool>, blur: nat)
    requires Shaped(a, g, c) && Priced(a, g, c) && g.numOracles == |spot| == |bids|
    requires SymmetricPerps(g, healthType) && PricesNonNegative(c)
    requires SpotsComparable(a, g, c, healthType, toDouble, spot, blur)
    ensures HealthOf(a, g, c, healthType, toDouble)
         <= Health(g, c, ComponentsIf(a, g, c, toDouble, spot, bids), healthType, g.numOracles)
            + TotalSpotSlack(a, g, c, healthType, g.numOracles, spot, blur)
  {
    hide Health, Quote, QuoteIf, SymmetricPerps, SpotsComparable, TotalSpotSlack;
    WorstUpTo(a, g, c, healthType, toDouble, spot, bids, blur, g.numOracles);
  }
}
