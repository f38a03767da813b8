/** role.terminal: a terminal sells a resource when it holds more than the configured
    maximum and buys it when it holds less than the configured minimum, dealing with one
    market order per resource and tick. The market (`getAllOrders`) and the transaction fee
    (`calcTransactionCost`) are inputs; the model returns the deal the terminal asks for. */
module RoleTerminal {
  import opened Screeps
  import HarvestSource

  /** A market order as `getAllOrders` returns it. Prices are exact reals here. */
  datatype Order = Order(id: string, price: real, amount: nat, roomName: string)

  datatype OrderKind = OrderBuy | OrderSell

  /** `sell: {max, min, min_price}` and `buy: {min, max, max_price}` of one resource. */
  datatype SellConfig = SellConfig(max: int, min: int, minPrice: real)
  datatype BuyConfig = BuyConfig(min: int, max: int, maxPrice: real)
  datatype ResourceConfig = ResourceConfig(sell: Option<SellConfig>, buy: Option<BuyConfig>)

  /** One key of the TERMINAL table, in the table's key order; `cfg` is None for a key whose
      value is undefined. */
  datatype ConfigEntry = ConfigEntry(resource: Resource, cfg: Option<ResourceConfig>)

  /** `Game.market.deal(order.id, amount, room)`. */
  datatype Deal = Deal(order: Order, amount: int)

  function Min(a: int, b: int): int {
    if b < a then b else a
  }

  // ----- sortByPrice -----

  /** An order with its place in the list handed to `sortByPrice`. */
  datatype Placed = Placed(order: Order, index: nat)

  /** The orders with their places. */
  function Placements(orders: seq<Order>): (r: seq<Placed>)
    ensures |r| == |orders| && forall k :: 0 <= k < |r| ==> r[k] == Placed(orders[k], k)
  {
    seq(|orders|, k requires 0 <= k < |orders| => Placed(orders[k], k))
  }

  predicate PriceSorted(s: seq<Placed>) {
    forall p, q :: 0 <= p < q < |s| ==> s[p].order.price <= s[q].order.price
  }

  /** Orders at the same price come in the order of their places in the original list. */
  predicate PriceTiesInListedOrder(s: seq<Placed>) {
    forall p, q :: 0 <= p < q < |s| && s[p].order.price == s[q].order.price ==> s[p].index < s[q].index
  }

  /** Every order before `k` is at most as dear as every order from `k` on. */
  predicate PriceSplitAt(s: seq<Placed>, k: int) {
    forall p, q :: 0 <= p < k <= q < |s| ==> s[p].order.price <= s[q].order.price
  }

  /** The orders from `k` on are in order. */
  predicate PriceSortedFrom(s: seq<Placed>, k: int) {
    forall p, q :: 0 <= k <= p < q < |s| ==> s[p].order.price <= s[q].order.price
  }

  /** No order up to `i` is dearer than the one at `i`. */
  predicate PriceMaxAt(s: seq<Placed>, i: int)
    requires i < |s|
  {
    forall p :: 0 <= p <= i ==> s[p].order.price <= s[i].order.price
  }

  /** One step of the inner loop at `i`: after ordering the neighbours the dearest of the
      first `i + 2` orders sits at `i + 1`, and the part from `m` on is untouched. */
  lemma PriceStep(s: seq<Placed>, t: seq<Placed>, i: int, m: int)
    requires 0 <= i && i + 1 < m <= |s|
    requires PriceSortedFrom(s, m) && PriceSplitAt(s, m)
    requires PriceMaxAt(s, i)
    requires t == if s[i].order.price > s[i + 1].order.price then s[i := s[i + 1]][i + 1 := s[i]] else s
    ensures PriceSortedFrom(t, m) && PriceSplitAt(t, m)
    ensures PriceMaxAt(t, i + 1)
  {
    if s[i].order.price > s[i + 1].order.price {
      assert forall p :: 0 <= p < |s| ==> t[p] == (if p == i then s[i + 1] else if p == i + 1 then s[i] else s[p]);
      forall p | 0 <= p <= i + 1
        ensures t[p].order.price <= t[i + 1].order.price
      {
        if p < i { assert t[p] == s[p]; }
      }
      forall p, q | 0 <= p < m <= q < |s|
        ensures t[p].order.price <= t[q].order.price
      {
        assert t[q] == s[q];
        if p == i { assert t[p] == s[i + 1]; } else if p == i + 1 { assert t[p] == s[i]; } else { assert t[p] == s[p]; }
      }
    }
  }

  /** When the inner loop ends at `e`, the dearest of the first `e + 1` orders sits at `e`,
      so the sorted tail grows by one. */
  lemma PriceTailGrows(s: seq<Placed>, e: int)
    requires 0 <= e < |s|
    requires PriceSortedFrom(s, e + 1) && PriceSplitAt(s, e + 1) && PriceMaxAt(s, e)
    ensures PriceSortedFrom(s, e) && PriceSplitAt(s, e)
  {
  }

  /** Exchanging neighbours at different prices keeps the order of the ties. */
  lemma SwapKeepsPriceTies(s: seq<Placed>, i: int)
    requires 0 <= i && i + 1 < |s| && s[i].order.price != s[i + 1].order.price
    requires PriceTiesInListedOrder(s)
    ensures PriceTiesInListedOrder(s[i := s[i + 1]][i + 1 := s[i]])
  {
    var t := s[i := s[i + 1]][i + 1 := s[i]];
    forall p, q | 0 <= p < q < |t| && t[p].order.price == t[q].order.price
      ensures t[p].index < t[q].index
    {
      var p' := if p == i then i + 1 else if p == i + 1 then i else p;
      var q' := if q == i then i + 1 else if q == i + 1 then i else q;
      assert t[p] == s[p'] && t[q] == s[q'];
      assert p' < q';
    }
  }

  /** The neighbours at `i` and `i + 1` exchanged when the left one is strictly dearer. */
  function PairInOrder(s: seq<Placed>, i: int): (t: seq<Placed>)
    requires 0 <= i && i + 1 < |s|
    ensures |t| == |s| && t[i].order.price <= t[i + 1].order.price
    ensures forall p :: 0 <= p < |s| && p != i && p != i + 1 ==> t[p] == s[p]
    ensures {t[i], t[i + 1]} == {s[i], s[i + 1]}
  {
    if s[i].order.price > s[i + 1].order.price then s[i := s[i + 1]][i + 1 := s[i]] else s
  }

  /** The body of the inner loop over the first `m` orders: the neighbours at `i` and `i + 1`
      are exchanged when the left one is strictly dearer, which moves the dearest of the
      first `i + 2` orders to `i + 1`. */
  method OrderByPrice(orders: array<Placed>, i: int, m: int)
    requires 0 <= i && i + 1 < m <= orders.Length
    requires PriceSortedFrom(orders[..], m) && PriceSplitAt(orders[..], m) && PriceMaxAt(orders[..], i)
    modifies orders
    ensures orders[..] == PairInOrder(old(orders[..]), i)
    ensures multiset(orders[..]) == multiset(old(orders[..]))
    ensures PriceSortedFrom(orders[..], m) && PriceSplitAt(orders[..], m) && PriceMaxAt(orders[..], i + 1)
    ensures PriceTiesInListedOrder(old(orders[..])) ==> PriceTiesInListedOrder(orders[..])
  {
    ghost var before := orders[..];
    if orders[i].order.price > orders[i + 1].order.price {
      HarvestSource.Swap(orders, i, i + 1);
      if PriceTiesInListedOrder(before) {
        SwapKeepsPriceTies(before, i);
      }
    }
    PriceStep(before, orders[..], i, m);
  }

  /** The inner `for` loop over positions below `e`: it moves the dearest of the first
      `e + 1` orders to position `e` and keeps the sorted tail. */
  method PricePass(orders: array<Placed>, e: int)
    requires 1 <= e < orders.Length
    requires PriceSortedFrom(orders[..], e + 1) && PriceSplitAt(orders[..], e + 1)
    modifies orders
    ensures multiset(orders[..]) == multiset(old(orders[..]))
    ensures PriceSortedFrom(orders[..], e) && PriceSplitAt(orders[..], e)
    ensures PriceTiesInListedOrder(old(orders[..])) ==> PriceTiesInListedOrder(orders[..])
  {
    ghost var tied := PriceTiesInListedOrder(orders[..]);
    var i := 0;
    while i < e
      invariant 0 <= i <= e
      invariant multiset(orders[..]) == multiset(old(orders[..]))
      invariant PriceSortedFrom(orders[..], e + 1) && PriceSplitAt(orders[..], e + 1)
      invariant PriceMaxAt(orders[..], i)
      invariant tied ==> PriceTiesInListedOrder(orders[..])
    {
      OrderByPrice(orders, i, e + 1);
      i := i + 1;
    }
    PriceTailGrows(orders[..], e);
  }

  /** `sortByPrice`: a bubble sort that swaps neighbours only while the left one is strictly
      dearer. It leaves a rearrangement of the orders in non-decreasing price order, the
      cheapest first, although its doc comment promises the dearest; orders at the same price
      keep their relative order. */
  method SortByPrice(orders: array<Placed>)
    modifies orders
    ensures PriceSorted(orders[..])
    ensures multiset(orders[..]) == multiset(old(orders[..]))
    ensures PriceTiesInListedOrder(old(orders[..])) ==> PriceTiesInListedOrder(orders[..])
  {
    var e := orders.Length - 1;
    while e > 0
      invariant -1 <= e < orders.Length
      invariant multiset(orders[..]) == multiset(old(orders[..]))
      invariant PriceSortedFrom(orders[..], e + 1) && PriceSplitAt(orders[..], e + 1)
      invariant PriceTiesInListedOrder(old(orders[..])) ==> PriceTiesInListedOrder(orders[..])
    {
      PricePass(orders, e);
      e := e - 1;
    }
  }

  // ----- The order filters and amounts -----

  /** The buy orders a sale considers: price at least `min_price`, in market order. */
  function Bids(orders: seq<Order>, minPrice: real): (r: seq<Order>)
    ensures forall o :: o in r <==> o in orders && o.price >= minPrice
  {
    if orders == [] then []
    else (if orders[0].price >= minPrice then [orders[0]] else []) + Bids(orders[1..], minPrice)
  }

  /** The sell orders a purchase considers: price at most `max_price`, in market order. */
  function Asks(orders: seq<Order>, maxPrice: real): (r: seq<Order>)
    ensures forall o :: o in r <==> o in orders && o.price <= maxPrice
  {
    if orders == [] then []
    else (if orders[0].price <= maxPrice then [orders[0]] else []) + Asks(orders[1..], maxPrice)
  }

  /** What a sale of `ord` asks for: the surplus over `sell.min`, lowered to what the order
      takes. For energy the fee is paid in energy too: when the deal and its fee together
      exceed the surplus, the amount is lowered so that they use the surplus exactly. */
  function SellAmount(resource: Resource, stored: nat, sell: SellConfig, ord: Order, termRoom: string,
                      txCost: (int, string, string) -> int): (amount: int)
    ensures amount <= stored - sell.min && amount <= ord.amount
    ensures resource != RESOURCE_ENERGY ==>
      amount == stored - sell.min || amount == ord.amount
    ensures var a := Min(stored - sell.min, ord.amount);
      var fee := txCost(a, termRoom, ord.roomName);
      resource == RESOURCE_ENERGY ==>
        (amount == a && a + fee <= stored - sell.min) || amount + fee == stored - sell.min
  {
    var surplus := stored - sell.min;
    var amount := Min(surplus, ord.amount);
    if resource == RESOURCE_ENERGY then
      var fee := txCost(amount, termRoom, ord.roomName);
      if surplus < amount + fee then surplus - fee else amount
    else amount
  }

  /** What a purchase of `ord` asks for: what is missing up to `buy.max`, lowered to what the
      order offers. */
  function BuyAmount(stored: nat, buy: BuyConfig, ord: Order): (amount: int)
    ensures amount <= buy.max - stored && amount <= ord.amount
    ensures amount == buy.max - stored || amount == ord.amount
  {
    Min(buy.max - stored, ord.amount)
  }

  // ----- The decision for one resource -----

  /** The terminal holds more than the sale threshold. An undefined amount compares false. */
  predicate SellBranch(cfg: ResourceConfig, stored: Option<nat>) {
    cfg.sell.Some? && stored.Some? && stored.value > cfg.sell.value.max
  }

  /** Not selling, and the terminal holds less than the purchase threshold. */
  predicate BuyBranch(cfg: ResourceConfig, stored: Option<nat>) {
    !SellBranch(cfg, stored) && cfg.buy.Some? && stored.Some? && stored.value < cfg.buy.value.min
  }

  /** Order `k` of `os` is a cheapest one, and every order listed before it is dearer: the
      first listed of the cheapest. */
  predicate CheapestAt(os: seq<Order>, k: int) {
    0 <= k < |os| &&
    (forall j :: 0 <= j < |os| ==> os[k].price <= os[j].price) &&
    (forall j :: 0 <= j < k ==> os[k].price < os[j].price)
  }

  /** Order `k` of `os` is a dearest one, and every order listed after it is cheaper: the
      last listed of the dearest. */
  predicate DearestAt(os: seq<Order>, k: int) {
    0 <= k < |os| &&
    (forall j :: 0 <= j < |os| ==> os[j].price <= os[k].price) &&
    (forall j :: k < j < |os| ==> os[j].price < os[k].price)
  }

  /** Only one order is the first listed of the cheapest. */
  lemma CheapestAtUnique(os: seq<Order>, a: int, b: int)
    requires CheapestAt(os, a) && CheapestAt(os, b)
    ensures a == b
  {
    assert os[a].price <= os[b].price && os[b].price <= os[a].price;
  }

  /** Only one order is the last listed of the dearest. */
  lemma DearestAtUnique(os: seq<Order>, a: int, b: int)
    requires DearestAt(os, a) && DearestAt(os, b)
    ensures a == b
  {
    assert os[a].price <= os[b].price && os[b].price <= os[a].price;
  }

  /** The deals `run` may ask for one resource: when selling, the first listed of the
      cheapest bids at or above `min_price`; when buying, the last listed of the dearest asks
      at or below `max_price`; nothing when no order qualifies or neither threshold is
      crossed. */
  ghost predicate DealAsWritten(resource: Resource, cfg: ResourceConfig, stored: Option<nat>, termRoom: string,
                                market: (OrderKind, Resource) -> seq<Order>,
                                txCost: (int, string, string) -> int, d: Option<Deal>) {
    if SellBranch(cfg, stored) then
      var bids := Bids(market(OrderBuy, resource), cfg.sell.value.minPrice);
      (d.None? <==> bids == []) &&
      (d.Some? ==> exists k :: CheapestAt(bids, k) && d.value.order == bids[k]) &&
      (d.Some? ==> d.value.amount == SellAmount(resource, stored.value, cfg.sell.value, d.value.order, termRoom, txCost))
    else if BuyBranch(cfg, stored) then
      var asks := Asks(market(OrderSell, resource), cfg.buy.value.maxPrice);
      (d.None? <==> asks == []) &&
      (d.Some? ==> exists k :: DearestAt(asks, k) && d.value.order == asks[k]) &&
      (d.Some? ==> d.value.amount == BuyAmount(stored.value, cfg.buy.value, d.value.order))
    else d.None?
  }

  /** The orders, with their places, copied into an array and sorted there by `sortByPrice`. */
  method SortedByPrice(orders: seq<Order>) returns (sorted: seq<Placed>)
    ensures PriceSorted(sorted) && multiset(sorted) == multiset(Placements(orders))
    ensures PriceTiesInListedOrder(sorted)
  {
    var placed := Placements(orders);
    var a := new Placed[|orders|](k requires 0 <= k < |orders| => placed[k]);
    assert a[..] == placed;
    SortByPrice(a);
    sorted := a[..];
  }

  /** In a price-sorted sequence whose ties keep their listed order, an earlier entry is
      cheaper, or as cheap and listed earlier. */
  lemma PriceTieBreak(s: seq<Placed>, p: int, q: int)
    requires PriceSorted(s) && PriceTiesInListedOrder(s) && 0 <= p < q < |s|
    ensures s[p].order.price < s[q].order.price || (s[p].order.price == s[q].order.price && s[p].index < s[q].index)
  {
  }

  /** The ends of the stable price sort: its head is the first listed of the cheapest orders,
      its last entry the last listed of the dearest. */
  lemma SortedEnds(sorted: seq<Placed>, orders: seq<Order>)
    requires PriceSorted(sorted) && PriceTiesInListedOrder(sorted)
    requires multiset(sorted) == multiset(Placements(orders)) && |sorted| > 0
    ensures sorted[0].index < |orders| && sorted[0].order == orders[sorted[0].index]
    ensures CheapestAt(orders, sorted[0].index)
    ensures sorted[|sorted| - 1].index < |orders| && sorted[|sorted| - 1].order == orders[sorted[|sorted| - 1].index]
    ensures DearestAt(orders, sorted[|sorted| - 1].index)
  {
    var pl := Placements(orders);
    var last := |sorted| - 1;
    assert sorted[0] in multiset(pl);
    assert sorted[last] in multiset(pl);
    forall j | 0 <= j < |orders|
      ensures orders[sorted[0].index].price <= orders[j].price
      ensures j < sorted[0].index ==> orders[sorted[0].index].price < orders[j].price
      ensures orders[j].price <= orders[sorted[last].index].price
      ensures sorted[last].index < j ==> orders[j].price < orders[sorted[last].index].price
    {
      assert pl[j] in multiset(sorted);
      var q :| 0 <= q < |sorted| && sorted[q] == pl[j];
      if 0 < q {
        PriceTieBreak(sorted, 0, q);
      }
      if q < last {
        PriceTieBreak(sorted, q, last);
      }
    }
  }

  /** The body of the loop of `run` for one resource, as written: sell to the first order of
      the ascending sort, or buy from the first order after the sort and a reverse, which is
      the last of the ascending sort. */
  method TradeResource(resource: Resource, cfg: ResourceConfig, stored: Option<nat>, termRoom: string,
                       market: (OrderKind, Resource) -> seq<Order>,
                       txCost: (int, string, string) -> int) returns (d: Option<Deal>)
    ensures DealAsWritten(resource, cfg, stored, termRoom, market, txCost, d)
  {
    if cfg.sell.Some? && stored.Some? && stored.value > cfg.sell.value.max {
      var orders := Bids(market(OrderBuy, resource), cfg.sell.value.minPrice);
      if |orders| == 0 {
        return None;
      }
      var sorted := SortedByPrice(orders);
      SortedEnds(sorted, orders);
      var ord := sorted[0].order;
      return Some(Deal(ord, SellAmount(resource, stored.value, cfg.sell.value, ord, termRoom, txCost)));
    } else if cfg.buy.Some? && stored.Some? && stored.value < cfg.buy.value.min {
      var orders := Asks(market(OrderSell, resource), cfg.buy.value.maxPrice);
      if |orders| == 0 {
        return None;
      }
      var sorted := SortedByPrice(orders);
      SortedEnds(sorted, orders);
      // `orders.reverse()` puts the last order of the ascending sort first.
      var ord := sorted[|sorted| - 1].order;
      return Some(Deal(ord, BuyAmount(stored.value, cfg.buy.value, ord)));
    }
    return None;
  }

  /** `run`: every key of the room's TERMINAL table in order, one decision each. Without a
      table nothing happens; a key whose value is undefined throws, with the decisions
      before it made. */
  method Run(config: Option<seq<ConfigEntry>>, store: Store, termRoom: string,
             market: (OrderKind, Resource) -> seq<Order>, txCost: (int, string, string) -> int)
    returns (deals: seq<Option<Deal>>, thrown: bool)
    ensures config.None? ==> deals == [] && !thrown
    ensures config.Some? ==> |deals| <= |config.value|
    ensures config.Some? ==> (thrown <==> |deals| < |config.value|)
    ensures config.Some? && thrown ==> config.value[|deals|].cfg.None?
    ensures config.Some? ==> forall k :: 0 <= k < |deals| ==>
      config.value[k].cfg.Some? &&
      DealAsWritten(config.value[k].resource, config.value[k].cfg.value, HarvestSource.Stored(store, config.value[k].resource),
                    termRoom, market, txCost, deals[k])
  {
    deals, thrown := [], false;
    if config.None? {
      return;
    }
    var entries := config.value;
    var k := 0;
    while k < |entries|
      invariant k <= |entries| && |deals| == k
      invariant forall j :: 0 <= j < k ==>
        entries[j].cfg.Some? &&
        DealAsWritten(entries[j].resource, entries[j].cfg.value, HarvestSource.Stored(store, entries[j].resource),
                      termRoom, market, txCost, deals[j])
    {
      var entry := entries[k];
      if entry.cfg.None? {
        return deals, true;
      }
      var d := TradeResource(entry.resource, entry.cfg.value, HarvestSource.Stored(store, entry.resource),
                             termRoom, market, txCost);
      deals := deals + [d];
      k := k + 1;
    }
  }

  // ----- The evident intent -----

  /** The deals the doc comment of `sortByPrice` implies: with the dearest order first, a
      sale goes to a dearest bid and, after the reverse, a purchase to a cheapest ask. Ties
      go as the stable sort leaves them: the last listed dearest bid, the first listed
      cheapest ask. */
  ghost predicate DealIntended(resource: Resource, cfg: ResourceConfig, stored: Option<nat>, termRoom: string,
                               market: (OrderKind, Resource) -> seq<Order>,
                               txCost: (int, string, string) -> int, d: Option<Deal>) {
    if SellBranch(cfg, stored) then
      var bids := Bids(market(OrderBuy, resource), cfg.sell.value.minPrice);
      (d.None? <==> bids == []) &&
      (d.Some? ==> exists k :: DearestAt(bids, k) && d.value.order == bids[k]) &&
      (d.Some? ==> d.value.amount == SellAmount(resource, stored.value, cfg.sell.value, d.value.order, termRoom, txCost))
    else if BuyBranch(cfg, stored) then
      var asks := Asks(market(OrderSell, resource), cfg.buy.value.maxPrice);
      (d.None? <==> asks == []) &&
      (d.Some? ==> exists k :: CheapestAt(asks, k) && d.value.order == asks[k]) &&
      (d.Some? ==> d.value.amount == BuyAmount(stored.value, cfg.buy.value, d.value.order))
    else d.None?
  }

  /** The decision for one resource with the sort the doc comment describes: the sale takes
      the dearest bid, the purchase the cheapest ask. */
  method TradeResourceIntended(resource: Resource, cfg: ResourceConfig, stored: Option<nat>, termRoom: string,
                               market: (OrderKind, Resource) -> seq<Order>,
                               txCost: (int, string, string) -> int) returns (d: Option<Deal>)
    ensures DealIntended(resource, cfg, stored, termRoom, market, txCost, d)
  {
    if cfg.sell.Some? && stored.Some? && stored.value > cfg.sell.value.max {
      var orders := Bids(market(OrderBuy, resource), cfg.sell.value.minPrice);
      if |orders| == 0 {
        return None;
      }
      var sorted := SortedByPrice(orders);
      SortedEnds(sorted, orders);
      var ord := sorted[|sorted| - 1].order;
      return Some(Deal(ord, SellAmount(resource, stored.value, cfg.sell.value, ord, termRoom, txCost)));
    } else if cfg.buy.Some? && stored.Some? && stored.value < cfg.buy.value.min {
      var orders := Asks(market(OrderSell, resource), cfg.buy.value.maxPrice);
      if |orders| == 0 {
        return None;
      }
      var sorted := SortedByPrice(orders);
      SortedEnds(sorted, orders);
      var ord := sorted[0].order;
      return Some(Deal(ord, BuyAmount(stored.value, cfg.buy.value, ord)));
    }
    return None;
  }

  const LOW_BID := Order("bid-low", 1.0, 100, "W2N2")
  const HIGH_BID := Order("bid-high", 2.0, 100, "W3N3")

  /** Two bids of 1 and 2 credits for a mineral the terminal holds 500 of, selling above 100
      and keeping 50, with a minimum price of 1: as written the terminal sells 100 units at
      1 credit; the intended rule sells them at 2. */
  lemma SellsToLowestBid(d: Option<Deal>, e: Option<Deal>)
    requires DealAsWritten("H", ResourceConfig(Some(SellConfig(100, 50, 1.0)), None), Some(500), "W1N1",
                           (k: OrderKind, r: Resource) => if k == OrderBuy then [LOW_BID, HIGH_BID] else [],
                           (a: int, f: string, t: string) => 0, d)
    requires DealIntended("H", ResourceConfig(Some(SellConfig(100, 50, 1.0)), None), Some(500), "W1N1",
                          (k: OrderKind, r: Resource) => if k == OrderBuy then [LOW_BID, HIGH_BID] else [],
                          (a: int, f: string, t: string) => 0, e)
    ensures d == Some(Deal(LOW_BID, 100))
    ensures e == Some(Deal(HIGH_BID, 100))
  {
    assert [LOW_BID, HIGH_BID][1..] == [HIGH_BID];
    assert Bids([HIGH_BID], 1.0) == [HIGH_BID];
    var bids := Bids([LOW_BID, HIGH_BID], 1.0);
    assert bids == [LOW_BID, HIGH_BID];
    assert SellBranch(ResourceConfig(Some(SellConfig(100, 50, 1.0)), None), Some(500));
    assert d.value.order in bids && e.value.order in bids;
  }

  const LOW_ASK := Order("ask-low", 1.0, 100, "W2N2")
  const HIGH_ASK := Order("ask-high", 2.0, 100, "W3N3")

  /** Two asks of 1 and 2 credits for a mineral the terminal holds 50 of, buying below 100
      up to 300, with a maximum price of 3: as written the terminal buys 100 units at
      2 credits, the dearest ask after the reverse; the intended rule buys them at 1. */
  lemma BuysFromHighestAsk(d: Option<Deal>, e: Option<Deal>)
    requires DealAsWritten("H", ResourceConfig(None, Some(BuyConfig(100, 300, 3.0))), Some(50), "W1N1",
                           (k: OrderKind, r: Resource) => if k == OrderSell then [LOW_ASK, HIGH_ASK] else [],
                           (a: int, f: string, t: string) => 0, d)
    requires DealIntended("H", ResourceConfig(None, Some(BuyConfig(100, 300, 3.0))), Some(50), "W1N1",
                          (k: OrderKind, r: Resource) => if k == OrderSell then [LOW_ASK, HIGH_ASK] else [],
                          (a: int, f: string, t: string) => 0, e)
    ensures d == Some(Deal(HIGH_ASK, 100))
    ensures e == Some(Deal(LOW_ASK, 100))
  {
    assert [LOW_ASK, HIGH_ASK][1..] == [HIGH_ASK];
    assert Asks([HIGH_ASK], 3.0) == [HIGH_ASK];
    var asks := Asks([LOW_ASK, HIGH_ASK], 3.0);
    assert asks == [LOW_ASK, HIGH_ASK];
    assert BuyBranch(ResourceConfig(None, Some(BuyConfig(100, 300, 3.0))), Some(50));
    assert d.value.order in asks && e.value.order in asks;
  }

  const SMALL_BID := Order("bid-small", 1.0, 10, "W2N2")
  const LARGE_BID := Order("bid-large", 1.0, 500, "W3N3")

  /** Two bids at the same price: the stable sort keeps the first listed at the head, so the
      sale goes to it, for the 10 units it takes. */
  lemma SellTieGoesToFirstListed(d: Option<Deal>)
    requires DealAsWritten("H", ResourceConfig(Some(SellConfig(100, 50, 1.0)), None), Some(500), "W1N1",
                           (k: OrderKind, r: Resource) => if k == OrderBuy then [SMALL_BID, LARGE_BID] else [],
                           (a: int, f: string, t: string) => 0, d)
    ensures d == Some(Deal(SMALL_BID, 10))
  {
    assert [SMALL_BID, LARGE_BID][1..] == [LARGE_BID];
    assert Bids([LARGE_BID], 1.0) == [LARGE_BID];
    var bids := Bids([SMALL_BID, LARGE_BID], 1.0);
    assert bids == [SMALL_BID, LARGE_BID];
    assert SellBranch(ResourceConfig(Some(SellConfig(100, 50, 1.0)), None), Some(500));
    var k :| CheapestAt(bids, k) && d.value.order == bids[k];
    assert k == 0;
  }
}
