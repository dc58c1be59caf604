/** Account data and per-market arithmetic (include/mango_v3.hpp, include/utils.hpp). */
module Mango {
  import opened Fixed
  import opened Numerals
  import opened PublicKeys
  import Base58
  import Serum

  const MAX_TOKENS: nat := 16
  const MAX_PAIRS: nat := 15
  const QUOTE_INDEX: nat := 15

  datatype HealthType = Unknown | Init | Maint

  /** Weights of one market, as raw fixed-point numbers. */
  datatype MarketWeights = MarketWeights(maintAsset: int, initAsset: int, maintLiab: int, initLiab: int)

  datatype PerpMarketInfo = PerpMarketInfo(perpMarket: Key, weights: MarketWeights, baseLotSize: int, quoteLotSize: int)

  datatype RootBankCache = RootBankCache(depositIndex: int, borrowIndex: int)

  datatype PerpMarketCache = PerpMarketCache(longFunding: int, shortFunding: int)

  datatype PerpAccountInfo = PerpAccountInfo(
    basePosition: int,
    quotePosition: int,
    longSettledFunding: int,
    shortSettledFunding: int,
    bidsQuantity: int,
    asksQuantity: int,
    takerBase: int,
    takerQuote: int)

  datatype MangoGroup = MangoGroup(numOracles: nat, spotMarkets: seq<MarketWeights>, perpMarkets: seq<PerpMarketInfo>) {
    predicate Valid() {
      numOracles <= MAX_PAIRS == |spotMarkets| && |perpMarkets| == MAX_PAIRS
    }
  }

  datatype MangoCache = MangoCache(prices: seq<int>, rootBanks: seq<RootBankCache>, perpMarkets: seq<PerpMarketCache>) {
    predicate Valid() {
      |prices| == MAX_PAIRS && |rootBanks| == MAX_TOKENS && |perpMarkets| == MAX_PAIRS
    }
  }

  /** An account together with the open orders that were loaded for it, by key text. */
  datatype MangoAccount = MangoAccount(
    inMarginBasket: seq<bool>,
    deposits: seq<int>,
    borrows: seq<int>,
    spotOpenOrders: seq<Key>,
    perpAccounts: seq<PerpAccountInfo>,
    beingLiquidated: bool,
    openOrdersAccounts: map<Bytes, Serum.OpenOrders>)
  {
    predicate Valid() {
      && |inMarginBasket| == |spotOpenOrders| == |perpAccounts| == MAX_PAIRS
      && |deposits| == |borrows| == MAX_TOKENS
    }

    /** deposits - borrows in native terms */
    function Net(cache: RootBankCache, tokenIndex: nat): int
      requires Valid() && tokenIndex < MAX_TOKENS
    {
      Mul(deposits[tokenIndex], cache.depositIndex) - Mul(borrows[tokenIndex], cache.borrowIndex)
    }

    /** The open orders that count for market i, if any. */
    predicate HasOpenOrders(i: nat)
      requires Valid() && i < MAX_PAIRS
    {
      Base58.Encoded(spotOpenOrders[i]) in openOrdersAccounts && inMarginBasket[i]
    }

    function OpenOrders(i: nat): Serum.OpenOrders
      requires Valid() && i < MAX_PAIRS && HasOpenOrders(i)
    {
      openOrdersAccounts[Base58.Encoded(spotOpenOrders[i])]
    }
  }

  function FromInt(n: int): int {
    n * ONE
  }

  /** quoteFree, quoteLocked, baseFree, baseLocked, as 64-bit unsigned differences and sums */
  function SplitOpenOrders(o: Serum.OpenOrders): (int, int, int, int) {
    (Serum.Wrap64(o.quoteTokenFree + o.referrerRebatesAccrued),
     Serum.Wrap64(o.quoteTokenTotal - o.quoteTokenFree),
     o.baseTokenFree,
     Serum.Wrap64(o.baseTokenTotal - o.baseTokenFree))
  }

  function UnsettledFunding(account: PerpAccountInfo, cache: PerpMarketCache): int {
    if account.basePosition < 0 then
      Mul(FromInt(account.basePosition), cache.shortFunding - account.shortSettledFunding)
    else
      Mul(FromInt(account.basePosition), cache.longFunding - account.longSettledFunding)
  }

  function QuotePosition(account: PerpAccountInfo, cache: PerpMarketCache): int {
    account.quotePosition - UnsettledFunding(account, cache)
  }

  /** The asset and liability weight of a market for a health type. */
  function Weights(w: MarketWeights, healthType: HealthType): (int, int) {
    match healthType
    case Maint => (w.maintAsset, w.maintLiab)
    case Init => (w.initAsset, w.initLiab)
    case Unknown => (ONE, ONE)
  }
}

/** Open orders of the exchange (include/serum_v3.hpp). */
module Serum {
  datatype OpenOrders = OpenOrders(
    baseTokenFree: int,
    baseTokenTotal: int,
    quoteTokenFree: int,
    quoteTokenTotal: int,
    referrerRebatesAccrued: int)
  {
    /** 64-bit unsigned amounts, with no more free than there is in total. */
    predicate Valid() {
      && 0 <= baseTokenFree <= baseTokenTotal < 0x1_0000_0000_0000_0000
      && 0 <= quoteTokenFree <= quoteTokenTotal < 0x1_0000_0000_0000_0000
      && 0 <= referrerRebatesAccrued < 0x1_0000_0000_0000_0000
    }
  }

  function Wrap64(n: int): (r: int)
    ensures 0 <= n < 0x1_0000_0000_0000_0000 ==> r == n
  {
    n % 0x1_0000_0000_0000_0000
  }
}
