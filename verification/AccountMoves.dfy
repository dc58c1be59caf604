/**
  How the health components follow the account data
  (include/MangoAccount.hpp:50-129, include/utils.hpp:8-30).
 */
module AccountMoves {
  import opened Fixed
  import opened HealthLaws
  import opened Mango
  import opened MangoHealth
  import opened Numerals
  import Base58
  import PublicKeys
  import Serum

  /** v is the product of two raw numbers, rounded down. */
  predicate IsProduct(v: int, x: int, y: int) {
    v * ONE <= x * y < (v + 1) * ONE
  }

  // ----- One market at a time -----

  ghost predicate Comparable(a: MangoAccount, b: MangoAccount, g: MangoGroup, c: MangoCache) {
    Shaped(a, g, c) && Shaped(b, g, c) && Priced(a, g, c) && Priced(b, g, c)
  }

  /** Accounts a and b agree on market i. */
  ghost predicate SameMarket(a: MangoAccount, b: MangoAccount, g: MangoGroup, c: MangoCache, toDouble: ToDouble, i: nat)
    requires Comparable(a, b, g, c) && i < g.numOracles
  {
    Spot(a, g, c, i, toDouble) == Spot(b, g, c, i, toDouble) && Perp(a, g, c, i) == Perp(b, g, c, i)
  }

  ghost predicate SameMarketsBut(a: MangoAccount, b: MangoAccount, g: MangoGroup, c: MangoCache, toDouble: ToDouble, t: nat)
    requires Comparable(a, b, g, c)
  {
    forall i :: 0 <= i < g.numOracles && i != t ==> SameMarket(a, b, g, c, toDouble, i)
  }

  /** What markets other than t and the quote balance add to the quote is the same. */
  lemma {:induction false} QuoteOfOthers(a: MangoAccount, b: MangoAccount, g: MangoGroup, c: MangoCache, toDouble: ToDouble, t: nat, n: nat)
    requires Comparable(a, b, g, c) && n <= g.numOracles && SameMarketsBut(a, b, g, c, toDouble, t)
    ensures Quote(b, g, c, n, toDouble) - Quote(a, g, c, n, toDouble)
         == b.Net(c.rootBanks[QUOTE_INDEX], QUOTE_INDEX) - a.Net(c.rootBanks[QUOTE_INDEX], QUOTE_INDEX)
            + if t < n then Spot(b, g, c, t, toDouble).quote + Perp(b, g, c, t).quote
                            - Spot(a, g, c, t, toDouble).quote - Perp(a, g, c, t).quote
              else 0
  {
    hide Spot, Perp, Priced, Base58.Encoded, Mul;
    if n > 0 {
      QuoteOfOthers(a, b, g, c, toDouble, t, n - 1);
      assert n - 1 != t ==> SameMarket(a, b, g, c, toDouble, n - 1);
    }
  }

  /** How the components of b differ from those of a when only market t and the quote balance do. */
  lemma ComponentsFollow(a: MangoAccount, b: MangoAccount, g: MangoGroup, c: MangoCache, toDouble: ToDouble, t: nat)
    requires Comparable(a, b, g, c) && t < g.numOracles && SameMarketsBut(a, b, g, c, toDouble, t)
    ensures var was, now := ComponentsOf(a, g, c, toDouble), ComponentsOf(b, g, c, toDouble);
            && now.spot == was.spot[t := Spot(b, g, c, t, toDouble).base]
            && now.perps == was.perps[t := Perp(b, g, c, t).base]
            && was.spot[t] == Spot(a, g, c, t, toDouble).base && was.perps[t] == Perp(a, g, c, t).base
            && now.quote - was.quote
               == b.Net(c.rootBanks[QUOTE_INDEX], QUOTE_INDEX) - a.Net(c.rootBanks[QUOTE_INDEX], QUOTE_INDEX)
                  + Spot(b, g, c, t, toDouble).quote + Perp(b, g, c, t).quote
                  - Spot(a, g, c, t, toDouble).quote - Perp(a, g, c, t).quote
  {
    var spot, perp := Spot(b, g, c, t, toDouble), Perp(b, g, c, t);
    hide Spot, Perp, Quote, Priced, Base58.Encoded, Mul;
    QuoteOfOthers(a, b, g, c, toDouble, t, g.numOracles);
    var was, now := ComponentsOf(a, g, c, toDouble), ComponentsOf(b, g, c, toDouble);
    forall i | 0 <= i < g.numOracles && i != t ensures now.spot[i] == was.spot[i] && now.perps[i] == was.perps[i] {
      assert SameMarket(a, b, g, c, toDouble, i);
    }
    assert now.spot == was.spot[t := spot.base];
    assert now.perps == was.perps[t := perp.base];
  }

  // ----- Balances -----

  function WithBalance(a: MangoAccount, t: nat, deposit: int, borrow: int): MangoAccount
    requires a.Valid() && t < MAX_TOKENS
  {
    a.(deposits := a.deposits[t := deposit], borrows := a.borrows[t := borrow])
  }

  lemma BalanceKeepsShape(a: MangoAccount, g: MangoGroup, c: MangoCache, t: nat, deposit: int, borrow: int)
    requires Shaped(a, g, c) && Priced(a, g, c) && t < MAX_TOKENS
    ensures Comparable(a, WithBalance(a, t, deposit, borrow), g, c)
  {
    hide Base58.Encoded;
    var b := WithBalance(a, t, deposit, borrow);
    forall i | 0 <= i < g.numOracles && b.HasOpenOrders(i) ensures c.prices[i] != 0 {
      assert a.HasOpenOrders(i);
    }
  }

  lemma OtherBalances(a: MangoAccount, g: MangoGroup, c: MangoCache, toDouble: ToDouble, t: nat, deposit: int, borrow: int)
    requires Shaped(a, g, c) && Priced(a, g, c) && t < MAX_TOKENS
    ensures Comparable(a, WithBalance(a, t, deposit, borrow), g, c)
    ensures SameMarketsBut(a, WithBalance(a, t, deposit, borrow), g, c, toDouble, t)
  {
    hide Base58.Encoded, Mul, SpotWorst, PerpWorst, PublicKeys.IsEmpty, Priced;
    BalanceKeepsShape(a, g, c, t, deposit, borrow);
  }

  /** The market holds no open orders that count: outside the margin basket, or not loaded. */
  predicate NoOpenOrders(a: MangoAccount, i: nat)
    requires a.Valid() && i < MAX_PAIRS
  {
    !a.inMarginBasket[i] || Base58.Encoded(a.spotOpenOrders[i]) !in a.openOrdersAccounts
  }

  /** A position without open orders is the deposits at their index less the borrows at theirs. */
  lemma PositionIsBalance(a: MangoAccount, g: MangoGroup, c: MangoCache, toDouble: ToDouble, i: nat, v: int, w: int)
    requires Shaped(a, g, c) && Priced(a, g, c) && i < g.numOracles && NoOpenOrders(a, i)
    requires IsProduct(v, a.deposits[i], c.rootBanks[i].depositIndex) && IsProduct(w, a.borrows[i], c.rootBanks[i].borrowIndex)
    ensures ComponentsOf(a, g, c, toDouble).spot[i] == v - w
  {
    hide Base58.Encoded, Mul, Quote, Perp, Priced;
    MulUnique(a.deposits[i], c.rootBanks[i].depositIndex, v);
    MulUnique(a.borrows[i], c.rootBanks[i].borrowIndex, w);
  }

  /** The quote balance adds its deposits at their index less its borrows at theirs, and does nothing else. */
  lemma QuoteIsBalance(a: MangoAccount, g: MangoGroup, c: MangoCache, toDouble: ToDouble, v: int, w: int)
    requires Shaped(a, g, c) && Priced(a, g, c)
    requires IsProduct(v, a.deposits[15], c.rootBanks[15].depositIndex) && IsProduct(w, a.borrows[15], c.rootBanks[15].borrowIndex)
    ensures var b := WithBalance(a, 15, 0, 0);
            Comparable(a, b, g, c)
            && ComponentsOf(a, g, c, toDouble)
               == ComponentsOf(b, g, c, toDouble).(quote := ComponentsOf(b, g, c, toDouble).quote + v - w)
  {
    hide Base58.Encoded, Mul, Quote, Spot, Perp, Priced;
    var b := WithBalance(a, 15, 0, 0);
    MulUnique(a.deposits[15], c.rootBanks[15].depositIndex, v);
    MulUnique(a.borrows[15], c.rootBanks[15].borrowIndex, w);
    MulUnique(0, c.rootBanks[15].depositIndex, 0);
    MulUnique(0, c.rootBanks[15].borrowIndex, 0);
    OtherBalances(a, g, c, toDouble, 15, 0, 0);
    QuoteChange(a, b, g, c, toDouble);
  }

  lemma QuoteChange(a: MangoAccount, b: MangoAccount, g: MangoGroup, c: MangoCache, toDouble: ToDouble)
    requires Comparable(a, b, g, c) && SameMarketsBut(a, b, g, c, toDouble, 15)
    ensures var was, now := ComponentsOf(a, g, c, toDouble), ComponentsOf(b, g, c, toDouble);
            && now.spot == was.spot && now.perps == was.perps
            && now.quote - was.quote == b.Net(c.rootBanks[15], 15) - a.Net(c.rootBanks[15], 15)
  {
    hide Spot, Perp, Quote, Priced, Base58.Encoded, Mul;
    QuoteOfOthers(a, b, g, c, toDouble, 15, g.numOracles);
    var was, now := ComponentsOf(a, g, c, toDouble), ComponentsOf(b, g, c, toDouble);
    forall i | 0 <= i < g.numOracles ensures now.spot[i] == was.spot[i] && now.perps[i] == was.perps[i] {
      assert SameMarket(a, b, g, c, toDouble, i);
    }
    assert now.spot == was.spot && now.perps == was.perps;
  }

  /** Depositing n units of the quote token and borrowing m of them moves the quote by n and m units at their indices. */
  lemma QuoteFollowsBalance(a: MangoAccount, g: MangoGroup, c: MangoCache, toDouble: ToDouble, n: int, m: int)
    requires Shaped(a, g, c) && Priced(a, g, c)
    ensures var b := WithBalance(a, 15, a.deposits[15] + FromInt(n), a.borrows[15] + FromInt(m));
            Comparable(a, b, g, c)
            && var was := ComponentsOf(a, g, c, toDouble);
               ComponentsOf(b, g, c, toDouble)
               == was.(quote := was.quote + n * c.rootBanks[15].depositIndex - m * c.rootBanks[15].borrowIndex)
  {
    hide Base58.Encoded, Mul, Quote, Spot, Perp, Priced;
    var b := WithBalance(a, 15, a.deposits[15] + FromInt(n), a.borrows[15] + FromInt(m));
    MulShift(a.deposits[15], n, c.rootBanks[15].depositIndex);
    MulShift(a.borrows[15], m, c.rootBanks[15].borrowIndex);
    OtherBalances(a, g, c, toDouble, 15, b.deposits[15], b.borrows[15]);
    QuoteChange(a, b, g, c, toDouble);
  }

  /** The same for the token of a market without open orders, which moves its position and nothing else. */
  lemma PositionFollowsBalance(a: MangoAccount, g: MangoGroup, c: MangoCache, toDouble: ToDouble, i: nat, n: int, m: int)
    requires Shaped(a, g, c) && Priced(a, g, c) && i < g.numOracles && NoOpenOrders(a, i)
    ensures var b := WithBalance(a, i, a.deposits[i] + FromInt(n), a.borrows[i] + FromInt(m));
            Comparable(a, b, g, c)
            && var was := ComponentsOf(a, g, c, toDouble);
               ComponentsOf(b, g, c, toDouble)
               == was.(spot := was.spot[i := was.spot[i] + n * c.rootBanks[i].depositIndex - m * c.rootBanks[i].borrowIndex])
  {
    hide Base58.Encoded, Mul, Quote, SpotWorst, PerpWorst, Priced;
    var b := WithBalance(a, i, a.deposits[i] + FromInt(n), a.borrows[i] + FromInt(m));
    MulShift(a.deposits[i], n, c.rootBanks[i].depositIndex);
    MulShift(a.borrows[i], m, c.rootBanks[i].borrowIndex);
    OtherBalances(a, g, c, toDouble, i, b.deposits[i], b.borrows[i]);
    ComponentsFollow(a, b, g, c, toDouble, i);
    assert Perp(b, g, c, i) == Perp(a, g, c, i);
  }

  /** With open orders it moves the positions of both scenarios. */
  lemma ScenariosFollowBalance(a: MangoAccount, g: MangoGroup, c: MangoCache, toDouble: ToDouble, i: nat, n: int, m: int, side: Side)
    requires Shaped(a, g, c) && Priced(a, g, c) && i < g.numOracles && a.HasOpenOrders(i) && !side.Chosen?
    ensures var b := WithBalance(a, i, a.deposits[i] + FromInt(n), a.borrows[i] + FromInt(m));
            var was, now := SpotIf(a, g, c, i, toDouble, side), SpotIf(b, g, c, i, toDouble, side);
            now == was.(base := was.base + n * c.rootBanks[i].depositIndex - m * c.rootBanks[i].borrowIndex)
  {
    hide Base58.Encoded, Mul, Divided, Priced;
    MulShift(a.deposits[i], n, c.rootBanks[i].depositIndex);
    MulShift(a.borrows[i], m, c.rootBanks[i].borrowIndex);
  }

  // ----- Open orders -----

  /** Unlocked funds count as they are in both scenarios, the quote with its rebates in 64 bits. */
  lemma FreeFunds(baseNet: int, price: int, o: Serum.OpenOrders)
    requires o.Valid() && price != 0 && o.baseTokenTotal == o.baseTokenFree && o.quoteTokenTotal == o.quoteTokenFree
    ensures SpotBids(baseNet, price, o) == SpotAsks(baseNet, price, o)
         == Scenario(baseNet + FromInt(o.baseTokenFree),
                     FromInt((o.quoteTokenFree + o.referrerRebatesAccrued) % 0x1_0000_0000_0000_0000))
  {
    hide Mul, Divided;
    MulWhole(0, price);
    DividedZero(price);
  }

  lemma DividedZero(price: int)
    requires price != 0
    ensures Divided(0, price) == 0
  {
    hide Quot, Rem;
    DividedIs(0, price);
    DivisionUnique(0, Abs(price), 0, 0);
  }

  /** Offering n units of free base for sale is nothing to the bids, and sells them at the price in the asks. */
  lemma LockingBase(baseNet: int, price: int, o: Serum.OpenOrders, n: nat)
    requires o.Valid() && price != 0 && n <= o.baseTokenFree
    ensures var p := o.(baseTokenFree := o.baseTokenFree - n);
            var was := SpotAsks(baseNet, price, o);
            && SpotBids(baseNet, price, p) == SpotBids(baseNet, price, o)
            && SpotAsks(baseNet, price, p) == Scenario(was.base - FromInt(n), was.quote + n * price)
  {
    hide Mul, Divided;
    var locked := o.baseTokenTotal - o.baseTokenFree;
    MulWhole(locked, price);
    MulWhole(locked + n, price);
    assert (locked + n) * price == locked * price + n * price;
  }

  /** Bidding n units of free quote is nothing to the asks, and takes them from the quote in the bids. */
  lemma LockingQuote(baseNet: int, price: int, o: Serum.OpenOrders, n: nat)
    requires o.Valid() && price != 0 && n <= o.quoteTokenFree
    requires o.quoteTokenFree + o.referrerRebatesAccrued < 0x1_0000_0000_0000_0000
    ensures var p := o.(quoteTokenFree := o.quoteTokenFree - n);
            && SpotAsks(baseNet, price, p) == SpotAsks(baseNet, price, o)
            && SpotBids(baseNet, price, p).quote == SpotBids(baseNet, price, o).quote - FromInt(n)
  {
    hide Mul, Divided;
  }

  function InBasket(a: MangoAccount, i: nat, included: bool): MangoAccount
    requires a.Valid() && i < MAX_PAIRS
  {
    a.(inMarginBasket := a.inMarginBasket[i := included])
  }

  /**
    Open orders count exactly if their market is in the margin basket and they are loaded
    under the text of their key: then taking the market into the basket adds unlocked funds,
    and otherwise it adds nothing.
   */
  lemma BasketCounts(a: MangoAccount, g: MangoGroup, c: MangoCache, toDouble: ToDouble, i: nat)
    requires Shaped(a, g, c) && Priced(a, g, c) && i < g.numOracles && a.inMarginBasket[i]
    ensures var b := InBasket(a, i, false);
            Comparable(b, a, g, c)
            && var out, now, key := ComponentsOf(b, g, c, toDouble), ComponentsOf(a, g, c, toDouble), Base58.Encoded(a.spotOpenOrders[i]);
               && (key !in a.openOrdersAccounts ==> now == out)
               && (key in a.openOrdersAccounts && a.openOrdersAccounts[key].Valid() && Unlocked(a.openOrdersAccounts[key]) ==>
                    var o := a.openOrdersAccounts[key];
                    now == Components(out.spot[i := out.spot[i] + FromInt(o.baseTokenFree)], out.perps,
                                      out.quote + FromInt((o.quoteTokenFree + o.referrerRebatesAccrued) % 0x1_0000_0000_0000_0000)))
  {
    hide Base58.Encoded, Mul, Divided, SpotBids, SpotAsks, PerpWorst, Quote, PublicKeys.IsEmpty, AbsReal;
    var b, key := InBasket(a, i, false), Base58.Encoded(a.spotOpenOrders[i]);
    BasketKeepsOthers(a, g, c, toDouble, i);
    ComponentsFollow(b, a, g, c, toDouble, i);
    assert Perp(b, g, c, i) == Perp(a, g, c, i);
    if key in a.openOrdersAccounts && a.openOrdersAccounts[key].Valid() && Unlocked(a.openOrdersAccounts[key]) {
      assert a.HasOpenOrders(i);
      FreeFunds(a.Net(c.rootBanks[i], i), c.prices[i], a.openOrdersAccounts[key]);
    }
  }

  predicate Unlocked(o: Serum.OpenOrders) {
    o.baseTokenTotal == o.baseTokenFree && o.quoteTokenTotal == o.quoteTokenFree
  }

  lemma BasketKeepsOthers(a: MangoAccount, g: MangoGroup, c: MangoCache, toDouble: ToDouble, i: nat)
    requires Shaped(a, g, c) && Priced(a, g, c) && i < g.numOracles && a.inMarginBasket[i]
    ensures var b := InBasket(a, i, false); Comparable(b, a, g, c) && SameMarketsBut(b, a, g, c, toDouble, i)
  {
    hide Base58.Encoded, Mul, SpotWorst, PerpWorst, PublicKeys.IsEmpty;
    var b := InBasket(a, i, false);
    forall k | 0 <= k < g.numOracles && b.HasOpenOrders(k) ensures c.prices[k] != 0 {
      assert a.HasOpenOrders(k);
    }
  }

  // ----- Perpetual positions -----

  const FLAT: PerpAccountInfo := PerpAccountInfo(0, 0, 0, 0, 0, 0, 0, 0)

  /** No position and no orders are worth nothing in either scenario. */
  lemma FlatIsNothing(m: PerpMarketInfo, c: PerpMarketCache, price: int)
    ensures PerpBids(FLAT, m, c, price) == PerpAsks(FLAT, m, c, price) == Scenario(0, 0)
  {
    hide Mul;
    MulWhole(0, price);
    MulWhole(0, c.longFunding);
  }

  /** Each lot that is bid adds its base to the bids, at the price, and each lot that is asked takes it from the asks. */
  lemma PerpFollowsOrders(p: PerpAccountInfo, m: PerpMarketInfo, c: PerpMarketCache, price: int, bids: int, asks: int)
    ensures var q := p.(bidsQuantity := p.bidsQuantity + bids, asksQuantity := p.asksQuantity + asks);
            var b, a := PerpBids(p, m, c, price), PerpAsks(p, m, c, price);
            && PerpBids(q, m, c, price) == Scenario(b.base + bids * m.baseLotSize, b.quote - bids * m.baseLotSize * price)
            && PerpAsks(q, m, c, price) == Scenario(a.base - asks * m.baseLotSize, a.quote + asks * m.baseLotSize * price)
  {
    hide Mul;
    Lots(p.bidsQuantity, bids, m.baseLotSize, price);
    Lots(p.asksQuantity, asks, m.baseLotSize, price);
  }

  lemma Lots(x: int, n: int, lot: int, price: int)
    ensures (x + n) * lot == x * lot + n * lot
    ensures Mul(FromInt((x + n) * lot), price) == Mul(FromInt(x * lot), price) + n * lot * price
  {
    hide Mul;
    MulWhole((x + n) * lot, price);
    MulWhole(x * lot, price);
    Distribute(x, n, lot);
    Distribute(x * lot, n * lot, price);
  }

  /** Fills not yet settled count in both scenarios: the base by its lots, the quote by its own. */
  lemma PerpFollowsFills(p: PerpAccountInfo, m: PerpMarketInfo, c: PerpMarketCache, price: int, base: int, quote: int, raw: int)
    ensures var q := p.(takerBase := p.takerBase + base, takerQuote := p.takerQuote + quote, quotePosition := p.quotePosition + raw);
            var b, a := PerpBids(p, m, c, price), PerpAsks(p, m, c, price);
            var move := FromInt(quote * m.quoteLotSize) + raw;
            && PerpBids(q, m, c, price) == Scenario(b.base + base * m.baseLotSize, b.quote + move)
            && PerpAsks(q, m, c, price) == Scenario(a.base + base * m.baseLotSize, a.quote + move)
  {
    hide Mul;
    Distribute(p.basePosition + p.takerBase, base, m.baseLotSize);
    Distribute(p.takerQuote, quote, m.quoteLotSize);
  }

  /** A long position pays the rise of the long funding index for each lot, a short one is paid that of the short index. */
  lemma PerpFollowsFunding(p: PerpAccountInfo, m: PerpMarketInfo, c: PerpMarketCache, price: int, long: int, short: int)
    ensures var d := PerpMarketCache(c.longFunding + long, c.shortFunding + short);
            var paid := if p.basePosition < 0 then p.basePosition * short else p.basePosition * long;
            var b, a := PerpBids(p, m, c, price), PerpAsks(p, m, c, price);
            && PerpBids(p, m, d, price) == Scenario(b.base, b.quote - paid)
            && PerpAsks(p, m, d, price) == Scenario(a.base, a.quote - paid)
  {
    hide Mul;
    FundingRises(p.basePosition, c.longFunding - p.longSettledFunding, long);
    FundingRises(p.basePosition, c.shortFunding - p.shortSettledFunding, short);
  }

  lemma FundingRises(position: int, owed: int, rise: int)
    ensures Mul(FromInt(position), owed + rise) == Mul(FromInt(position), owed) + position * rise
  {
    hide Mul;
    MulWhole(position, owed + rise);
    MulWhole(position, owed);
    assert position * (owed + rise) == position * owed + position * rise;
  }

  /** When funding is settled, taking fills into the position changes nothing. */
  lemma SettlingFills(p: PerpAccountInfo, m: PerpMarketInfo, c: PerpMarketCache, price: int, n: int)
    requires p.longSettledFunding == c.longFunding && p.shortSettledFunding == c.shortFunding
    ensures var q := p.(basePosition := p.basePosition + n, takerBase := p.takerBase - n);
            PerpBids(q, m, c, price) == PerpBids(p, m, c, price) && PerpAsks(q, m, c, price) == PerpAsks(p, m, c, price)
  {
    hide Mul;
    MulWhole(p.basePosition, 0);
    MulWhole(p.basePosition + n, 0);
  }

  function WithPerp(a: MangoAccount, i: nat, p: PerpAccountInfo): MangoAccount
    requires a.Valid() && i < MAX_PAIRS
  {
    a.(perpAccounts := a.perpAccounts[i := p])
  }

  /** Components with a scenario of perp market i, in base units, on top. */
  function AddPerp(k: Components, i: nat, s: Scenario): Components
    requires i < |k.perps|
  {
    k.(perps := k.perps[i := k.perps[i] + FromInt(s.base)], quote := k.quote + s.quote)
  }

  /**
    A perp account counts exactly if its market has a key: it adds one of its two scenarios
    to what a flat one would, and is ignored if the key is all zeros.
   */
  lemma PerpCounts(a: MangoAccount, g: MangoGroup, c: MangoCache, toDouble: ToDouble, i: nat)
    requires Shaped(a, g, c) && Priced(a, g, c) && i < g.numOracles
    ensures var b := WithPerp(a, i, FLAT);
            Comparable(b, a, g, c)
            && var flat, now := ComponentsOf(b, g, c, toDouble), ComponentsOf(a, g, c, toDouble);
               flat.perps[i] == 0
               && if g.perpMarkets[i].perpMarket == seq(32, _ => 0) then now == flat else
                    now == AddPerp(flat, i, PerpBids(a.perpAccounts[i], g.perpMarkets[i], c.perpMarkets[i], c.prices[i]))
                    || now == AddPerp(flat, i, PerpAsks(a.perpAccounts[i], g.perpMarkets[i], c.perpMarkets[i], c.prices[i]))
  {
    hide Base58.Encoded, Mul, SpotWorst, PerpBids, PerpAsks, Quote, PublicKeys.IsEmpty;
    var b, m := WithPerp(a, i, FLAT), g.perpMarkets[i];
    PerpKeepsOthers(a, g, c, toDouble, i);
    ComponentsFollow(b, a, g, c, toDouble, i);
    FlatIsNothing(m, c.perpMarkets[i], c.prices[i]);
    EmptyKey(m.perpMarket);
    var bids, asks := PerpBids(a.perpAccounts[i], m, c.perpMarkets[i], c.prices[i]), PerpAsks(a.perpAccounts[i], m, c.perpMarkets[i], c.prices[i]);
    var flat, now := ComponentsOf(b, g, c, toDouble), ComponentsOf(a, g, c, toDouble);
    if m.perpMarket == seq(32, _ => 0) {
      assert now == flat;
    } else {
      assert now == AddPerp(flat, i, if Abs(bids.base) > Abs(asks.base) then bids else asks);
    }
  }

  lemma EmptyKey(key: PublicKeys.Key)
    ensures PublicKeys.IsEmpty(key) <==> key == seq(32, _ => 0)
  {
  }

  lemma PerpKeepsOthers(a: MangoAccount, g: MangoGroup, c: MangoCache, toDouble: ToDouble, i: nat)
    requires Shaped(a, g, c) && Priced(a, g, c) && i < g.numOracles
    ensures var b := WithPerp(a, i, FLAT);
            Comparable(b, a, g, c) && SameMarketsBut(b, a, g, c, toDouble, i)
            && Spot(b, g, c, i, toDouble) == Spot(a, g, c, i, toDouble)
  {
    hide Base58.Encoded, Mul, SpotWorst, PerpWorst, PublicKeys.IsEmpty;
    var b := WithPerp(a, i, FLAT);
    forall k | 0 <= k < g.numOracles && b.HasOpenOrders(k) ensures c.prices[k] != 0 {
      assert a.HasOpenOrders(k);
    }
  }

  // ----- Weights -----

  /** Groups g and h have the same weights for a health type, whatever those for the other. */
  ghost predicate SameWeights(g: MangoGroup, h: MangoGroup, healthType: HealthType)
    requires g.Valid() && h.Valid()
  {
    healthType.Unknown? || forall i :: 0 <= i < MAX_PAIRS ==>
      var s, t, p, q := g.spotMarkets[i], h.spotMarkets[i], g.perpMarkets[i].weights, h.perpMarkets[i].weights;
      if healthType.Maint? then
        s.maintAsset == t.maintAsset && s.maintLiab == t.maintLiab && p.maintAsset == q.maintAsset && p.maintLiab == q.maintLiab
      else
        s.initAsset == t.initAsset && s.initLiab == t.initLiab && p.initAsset == q.initAsset && p.initLiab == q.initLiab
  }

  /** Health and the weighted values of a type depend on no weights but those of the type. */
  lemma {:induction false} OnlyOwnWeights(g: MangoGroup, h: MangoGroup, c: MangoCache, k: Components, healthType: HealthType, n: nat)
    requires g.Valid() && h.Valid() && c.Valid() && n <= g.numOracles == h.numOracles == |k.spot| == |k.perps|
    requires SameWeights(g, h, healthType)
    ensures Health(g, c, k, healthType, n) == Health(h, c, k, healthType, n)
    ensures Assets(g, c, k, healthType, n) == Assets(h, c, k, healthType, n)
    ensures Liabs(g, c, k, healthType, n) == Liabs(h, c, k, healthType, n)
  {
    hide HealthTerm, AssetTerm, LiabTerm, Mul;
    if n > 0 {
      OnlyOwnWeights(g, h, c, k, healthType, n - 1);
    }
  }

  /** The weight that a market's position is due: by the type of health, and by its sign. */
  predicate IsWeight(w: int, m: MarketWeights, healthType: HealthType, base: int) {
    && (healthType == Maint && base > 0 ==> w == m.maintAsset)
    && (healthType == Maint && base <= 0 ==> w == m.maintLiab)
    && (healthType == Init && base > 0 ==> w == m.initAsset)
    && (healthType == Init && base <= 0 ==> w == m.initLiab)
    && (healthType == Unknown ==> w == ONE)
  }

  /** The position base is worth v at the price, and t with its weight, each rounded down. */
  predicate IsWeighted(t: int, base: int, price: int, m: MarketWeights, healthType: HealthType, v: int, w: int) {
    IsProduct(v, base, price) && IsWeight(w, m, healthType, base) && IsProduct(t, v, w)
  }

  lemma TermIs(t: int, base: int, price: int, m: MarketWeights, healthType: HealthType, v: int, w: int)
    requires IsWeighted(t, base, price, m, healthType, v, w)
    ensures HealthTerm(base, price, Weights(m, healthType)) == t
    ensures base > 0 ==> AssetTerm(base, price, Weights(m, healthType)) == t && LiabTerm(base, price, Weights(m, healthType)) == 0
    ensures base <= 0 ==> AssetTerm(base, price, Weights(m, healthType)) == 0
    ensures HealthTerm(0, price, Weights(m, healthType)) == 0
    ensures AssetTerm(0, price, Weights(m, healthType)) == 0 && LiabTerm(0, price, Weights(m, healthType)) == 0
  {
    hide Mul;
    MulUnique(base, price, v);
    MulUnique(v, w, t);
    MulWhole(0, price);
    MulWhole(0, Weights(m, healthType).1);
    MulWhole(-1, 0);
  }

  function WithSpot(k: Components, i: nat, base: int): Components
    requires i < |k.spot|
  {
    k.(spot := k.spot[i := base])
  }

  function WithPerpBase(k: Components, i: nat, base: int): Components
    requires i < |k.perps|
  {
    k.(perps := k.perps[i := base])
  }

  /** A position adds its weighted value to the health, beside whatever else there is. */
  lemma HealthFollowsSpot(g: MangoGroup, c: MangoCache, k: Components, healthType: HealthType, i: nat, base: int, t: int, v: int, w: int)
    requires g.Valid() && c.Valid() && i < g.numOracles == |k.spot| == |k.perps|
    requires IsWeighted(t, base, c.prices[i], g.spotMarkets[i], healthType, v, w)
    ensures Health(g, c, WithSpot(k, i, base), healthType, g.numOracles) == Health(g, c, WithSpot(k, i, 0), healthType, g.numOracles) + t
    ensures Assets(g, c, WithSpot(k, i, base), healthType, g.numOracles)
         == Assets(g, c, WithSpot(k, i, 0), healthType, g.numOracles) + if base > 0 then t else 0
  {
    hide HealthTerm, AssetTerm, LiabTerm, Weights, IsWeighted;
    TermIs(t, base, c.prices[i], g.spotMarkets[i], healthType, v, w);
    SpotSums(g, c, k, healthType, i, base, g.numOracles);
    SpotSums(g, c, k, healthType, i, 0, g.numOracles);
  }

  lemma {:induction false} SpotSums(g: MangoGroup, c: MangoCache, k: Components, healthType: HealthType, i: nat, base: int, n: nat)
    requires g.Valid() && c.Valid() && n <= g.numOracles == |k.spot| == |k.perps| && i < g.numOracles
    ensures var was, now, w := k.spot[i], WithSpot(k, i, base), Weights(g.spotMarkets[i], healthType);
            var p := c.prices[i];
            && Health(g, c, now, healthType, n)
               == Health(g, c, k, healthType, n) + (if i < n then HealthTerm(base, p, w) - HealthTerm(was, p, w) else 0)
            && Assets(g, c, now, healthType, n)
               == Assets(g, c, k, healthType, n) + (if i < n then AssetTerm(base, p, w) - AssetTerm(was, p, w) else 0)
            && Liabs(g, c, now, healthType, n)
               == Liabs(g, c, k, healthType, n) + (if i < n then LiabTerm(base, p, w) - LiabTerm(was, p, w) else 0)
  {
    hide HealthTerm, AssetTerm, LiabTerm, Weights;
    if n > 0 {
      SpotSums(g, c, k, healthType, i, base, n - 1);
    }
  }

  lemma HealthFollowsPerp(g: MangoGroup, c: MangoCache, k: Components, healthType: HealthType, i: nat, base: int, t: int, v: int, w: int)
    requires g.Valid() && c.Valid() && i < g.numOracles == |k.spot| == |k.perps|
    requires IsWeighted(t, base, c.prices[i], g.perpMarkets[i].weights, healthType, v, w)
    ensures Health(g, c, WithPerpBase(k, i, base), healthType, g.numOracles)
         == Health(g, c, WithPerpBase(k, i, 0), healthType, g.numOracles) + t
    ensures Assets(g, c, WithPerpBase(k, i, base), healthType, g.numOracles)
         == Assets(g, c, WithPerpBase(k, i, 0), healthType, g.numOracles) + if base > 0 then t else 0
  {
    hide HealthTerm, AssetTerm, LiabTerm, Weights, IsWeighted;
    TermIs(t, base, c.prices[i], g.perpMarkets[i].weights, healthType, v, w);
    PerpSums(g, c, k, healthType, i, base, g.numOracles);
    PerpSums(g, c, k, healthType, i, 0, g.numOracles);
  }

  lemma {:induction false} PerpSums(g: MangoGroup, c: MangoCache, k: Components, healthType: HealthType, i: nat, base: int, n: nat)
    requires g.Valid() && c.Valid() && n <= g.numOracles == |k.spot| == |k.perps| && i < g.numOracles
    ensures var was, now, w := k.perps[i], WithPerpBase(k, i, base), Weights(g.perpMarkets[i].weights, healthType);
            var p := c.prices[i];
            && Health(g, c, now, healthType, n)
               == Health(g, c, k, healthType, n) + (if i < n then HealthTerm(base, p, w) - HealthTerm(was, p, w) else 0)
            && Assets(g, c, now, healthType, n)
               == Assets(g, c, k, healthType, n) + (if i < n then AssetTerm(base, p, w) - AssetTerm(was, p, w) else 0)
            && Liabs(g, c, now, healthType, n)
               == Liabs(g, c, k, healthType, n) + (if i < n then LiabTerm(base, p, w) - LiabTerm(was, p, w) else 0)
  {
    hide HealthTerm, AssetTerm, LiabTerm, Weights;
    if n > 0 {
      PerpSums(g, c, k, healthType, i, base, n - 1);
    }
  }

  /** A debt adds its weighted size to the liabilities, and a positive position adds nothing to them. */
  lemma LiabsFollow(g: MangoGroup, c: MangoCache, k: Components, healthType: HealthType, i: nat, base: int, t: int, v: int, w: int)
    requires g.Valid() && c.Valid() && i < g.numOracles == |k.spot| == |k.perps|
    requires IsProduct(v, -base, c.prices[i]) && IsProduct(t, v, w)
    ensures IsWeight(w, g.spotMarkets[i], healthType, base) ==>
              Liabs(g, c, WithSpot(k, i, base), healthType, g.numOracles)
              == Liabs(g, c, WithSpot(k, i, 0), healthType, g.numOracles) + if base > 0 then 0 else t
    ensures IsWeight(w, g.perpMarkets[i].weights, healthType, base) ==>
              Liabs(g, c, WithPerpBase(k, i, base), healthType, g.numOracles)
              == Liabs(g, c, WithPerpBase(k, i, 0), healthType, g.numOracles) + if base > 0 then 0 else t
  {
    hide HealthTerm, AssetTerm, LiabTerm, Weights, IsProduct, IsWeight;
    DebtIs(t, base, c.prices[i], g.spotMarkets[i], healthType, v, w);
    DebtIs(t, base, c.prices[i], g.perpMarkets[i].weights, healthType, v, w);
    SpotSums(g, c, k, healthType, i, base, g.numOracles);
    SpotSums(g, c, k, healthType, i, 0, g.numOracles);
    PerpSums(g, c, k, healthType, i, base, g.numOracles);
    PerpSums(g, c, k, healthType, i, 0, g.numOracles);
  }

  lemma DebtIs(t: int, base: int, price: int, m: MarketWeights, healthType: HealthType, v: int, w: int)
    requires IsProduct(v, -base, price) && IsProduct(t, v, w)
    ensures IsWeight(w, m, healthType, base) ==> LiabTerm(base, price, Weights(m, healthType)) == if base > 0 then 0 else t
    ensures LiabTerm(0, price, Weights(m, healthType)) == 0
  {
    hide Mul;
    MulWhole(-1, base);
    MulUnique(-base, price, v);
    MulUnique(v, w, t);
    MulWhole(0, price);
    MulWhole(0, Weights(m, healthType).1);
    MulWhole(-1, 0);
  }

  /** Without positions the health is the quote, which is an asset or a liability by its sign. */
  lemma {:induction false} HealthOfQuote(g: MangoGroup, c: MangoCache, quote: int, healthType: HealthType, n: nat)
    requires g.Valid() && c.Valid() && n <= g.numOracles
    ensures var k := Components(seq(g.numOracles, _ => 0), seq(g.numOracles, _ => 0), quote);
            && Health(g, c, k, healthType, n) == quote
            && Assets(g, c, k, healthType, n) == (if quote > 0 then quote else 0)
            && Liabs(g, c, k, healthType, n) == (if quote > 0 then 0 else -quote)
  {
    hide HealthTerm, AssetTerm, LiabTerm, Weights, Mul;
    MulWhole(-1, quote);
    if n > 0 {
      HealthOfQuote(g, c, quote, healthType, n - 1);
      ZeroTerms(c.prices[n - 1], Weights(g.spotMarkets[n - 1], healthType));
      ZeroTerms(c.prices[n - 1], Weights(g.perpMarkets[n - 1].weights, healthType));
    }
  }

  lemma ZeroTerms(price: int, w: (int, int))
    ensures HealthTerm(0, price, w) == 0 && AssetTerm(0, price, w) == 0 && LiabTerm(0, price, w) == 0
  {
    hide Mul;
    MulWhole(0, price);
    MulWhole(0, w.1);
    MulWhole(-1, 0);
  }

  /** A lone debt of n units at a whole price takes n times the price at the liability weight of the health type. */
  lemma LoneDebt(g: MangoGroup, c: MangoCache, quote: int, healthType: HealthType, i: nat, n: nat, p: int, w: int)
    requires g.Valid() && c.Valid() && i < g.numOracles && c.prices[i] == FromInt(p)
    requires IsWeight(w, g.spotMarkets[i], healthType, -(n as int))
    ensures var k := Components(seq(g.numOracles, _ => 0)[i := -FromInt(n)], seq(g.numOracles, _ => 0), quote);
            Health(g, c, k, healthType, g.numOracles) == quote - n * p * w
  {
    hide Health, Assets, Mul;
    var none := Components(seq(g.numOracles, _ => 0), seq(g.numOracles, _ => 0), quote);
    var base: int := -(n as int);
    HealthOfQuote(g, c, quote, healthType, g.numOracles);
    assert none.spot[i := 0] == none.spot;
    assert FromInt(base) * FromInt(p) == FromInt(base * p) * ONE;
    assert FromInt(base * p) * w == (base * p * w) * ONE;
    HealthFollowsSpot(g, c, none, healthType, i, FromInt(base), base * p * w, FromInt(base * p), w);
    assert base * p * w == -(n * p * w);
  }
}
