/**
 * Matching as the walk down one priority queue: the resting orders of a side, best first.  This is
 * the reference the order book's nested loops over price levels are proved against.
 */
module MatchingModel {
  import opened Bytes
  import opened ExchangeTypes

  /** A resting order in its list node; nodes are numbered in order of arrival. */
  datatype Node = Node(id: nat, order: Order)

  // ---------------------------------------------------------------- one match

  datatype Trade = Trade(buy: Order, sell: Order, fills: seq<Fill>, reports: seq<Report>)

  function FillReport(o: Order, quantity: nat, price: nat): Report {
    Report(o.orderId, o.symbol, o.side, if o.remaining == 0 then Filled else PartiallyFilled, o.price, o.quantity,
           o.remaining, quantity, price, "", o.clientId)
  }

  /** MatchingEngine::matchOrders. */
  function MatchOrders(buy: Order, sell: Order, symbol: Symbol, tradeId: nat): Trade {
    var quantity := Min(buy.remaining, sell.remaining);
    if quantity == 0 then Trade(buy, sell, [], [])
    else
      var price := if sell.timestamp < buy.timestamp then sell.price else buy.price;
      var buy' := buy.(remaining := buy.remaining - quantity);
      var sell' := sell.(remaining := sell.remaining - quantity);
      Trade(buy', sell', [Fill(tradeId, buy.orderId, sell.orderId, symbol, price, quantity)],
            [FillReport(buy', quantity, price), FillReport(sell', quantity, price)])
  }

  /** matchOrders with the two orders told apart by which one is resting. */
  function MatchResting(incoming: Order, resting: Order, symbol: Symbol, tradeId: nat): Trade {
    if incoming.side.Buy? then MatchOrders(incoming, resting, symbol, tradeId)
    else MatchOrders(resting, incoming, symbol, tradeId)
  }

  function IncomingOf(incoming: Order, t: Trade): Order { if incoming.side.Buy? then t.buy else t.sell }

  function RestingOf(incoming: Order, t: Trade): Order { if incoming.side.Buy? then t.sell else t.buy }

  /** Neither price is improved on: a trade between orders that cross is inside both limits. */
  lemma TradeIsInsideBothLimits(buy: Order, sell: Order, symbol: Symbol, tradeId: nat)
    requires sell.price <= buy.price
    ensures forall f | f in MatchOrders(buy, sell, symbol, tradeId).fills :: sell.price <= f.price <= buy.price
  {
  }

  /** Exactly when the resting order dictates the price of a trade: it must be the older one, or
      for an incoming sell at least as old, unless the two prices agree anyway. */
  lemma RestingOrderSetsPriceIff(incoming: Order, resting: Order, symbol: Symbol, tradeId: nat)
    requires incoming.remaining > 0 && resting.remaining > 0
    ensures var t := MatchResting(incoming, resting, symbol, tradeId);
      |t.fills| == 1 &&
      (t.fills[0].price == resting.price <==>
        incoming.price == resting.price
        || (if incoming.side.Buy? then resting.timestamp < incoming.timestamp
            else resting.timestamp <= incoming.timestamp))
  {
  }

  /** At equal timestamps an incoming buy at 101 pays 101 to a sell resting at 100; an incoming sell
      at 100 gets the 101 of a resting buy. */
  lemma EqualTimestampsFavourTheBuyersPrice(symbol: Symbol)
    ensures var buy := Order(1, symbol, Buy, Limit, 101, 1, 1, 5, 0);
      var sell := Order(2, symbol, Sell, Limit, 100, 1, 1, 5, 0);
      && MatchResting(buy, sell, symbol, 1).fills == [Fill(1, 1, 2, symbol, 101, 1)]
      && MatchResting(sell, buy, symbol, 1).fills == [Fill(1, 1, 2, symbol, 101, 1)]
  {
  }

  // ---------------------------------------------------------------- priority

  /** price is strictly better than other for a resting order of the side. */
  predicate Better(side: Side, price: nat, other: nat) {
    if side.Buy? then price > other else price < other
  }

  /** Price-time priority: the better price first, then the earlier arrival. */
  predicate Ahead(side: Side, a: Node, b: Node) {
    Better(side, a.order.price, b.order.price) || (a.order.price == b.order.price && a.id < b.id)
  }

  predicate Resting(side: Side, n: Node, nextNode: nat) {
    n.order.side == side && n.order.kind == Limit && n.order.remaining > 0 && n.id < nextNode
  }

  ghost predicate SideGood(side: Side, nodes: seq<Node>, nextNode: nat) {
    && (forall i | 0 <= i < |nodes| :: Resting(side, nodes[i], nextNode))
    && (forall i, j | 0 <= i < j < |nodes| :: Ahead(side, nodes[i], nodes[j]) && nodes[i].id != nodes[j].id)
  }

  /** An order may trade at this resting price. */
  predicate Crosses(o: Order, price: nat) {
    o.kind == Market || (if o.side.Buy? then o.price >= price else o.price <= price)
  }

  function Volume(nodes: seq<Node>): nat {
    if nodes == [] then 0 else nodes[0].order.remaining + Volume(nodes[1..])
  }

  function Traded(fills: seq<Fill>): nat {
    if fills == [] then 0 else fills[0].quantity + Traded(fills[1..])
  }

  lemma {:induction false} TradedConcat(a: seq<Fill>, b: seq<Fill>)
    ensures Traded(a + b) == Traded(a) + Traded(b)
  {
    if a == [] {
      assert a + b == b;
    } else {
      assert (a + b)[1..] == a[1..] + b;
      TradedConcat(a[1..], b);
    }
  }

  // ---------------------------------------------------------------- the walk

  /** The incoming order and the resting ones afterwards, the fills and reports made on the way, and
      the ids of the orders that left the queue, in order. */
  datatype Matched =
    Matched(incoming: Order, resting: seq<Node>, fills: seq<Fill>, reports: seq<Report>, gone: seq<nat>)

  function Preceded(t: Trade, gone: seq<nat>, m: Matched): Matched {
    m.(fills := t.fills + m.fills, reports := t.reports + m.reports, gone := gone + m.gone)
  }

  function After(o: Order, quantity: nat): Order
    requires quantity <= o.remaining
  {
    o.(remaining := o.remaining - quantity)
  }

  function Reduced(n: Node, quantity: nat): Node
    requires quantity <= n.order.remaining
  {
    n.(order := After(n.order, quantity))
  }

  /** Match against the best resting order for as long as there is one and the prices cross: the two
      trade what the smaller one has left, and a resting order with nothing left goes. */
  function Match(o: Order, resting: seq<Node>, symbol: Symbol, trade: nat): Matched
    decreases |resting|
  {
    if !GoesOn(o, resting) then Matched(o, resting, [], [], [])
    else
      var r := resting[0].order;
      var q := Min(o.remaining, r.remaining);
      var t := MatchResting(o, r, symbol, trade);
      if q == r.remaining then
        Preceded(t, [r.orderId], Match(After(o, q), resting[1..], symbol, trade + |t.fills|))
      else
        Matched(After(o, q), [Reduced(resting[0], q)] + resting[1..], t.fills, t.reports, [])
  }

  predicate GoesOn(o: Order, resting: seq<Node>) {
    o.remaining > 0 && resting != [] && Crosses(o, resting[0].order.price)
  }

  ghost predicate AllLive(resting: seq<Node>, side: Side) {
    forall i | 0 <= i < |resting| :: resting[i].order.remaining > 0 && resting[i].order.side == side
  }

  /** One match takes the same quantity from both orders and changes nothing else about them. */
  lemma OneMatch(o: Order, r: Order, symbol: Symbol, trade: nat)
    ensures var t, q := MatchResting(o, r, symbol, trade), Min(o.remaining, r.remaining);
      && IncomingOf(o, t) == After(o, q)
      && RestingOf(o, t) == After(r, q)
      && Traded(t.fills) == q
  {
  }

  lemma MatchUnfolds(o: Order, resting: seq<Node>, symbol: Symbol, trade: nat) returns (t: Trade, q: nat)
    requires GoesOn(o, resting)
    ensures t == MatchResting(o, resting[0].order, symbol, trade)
    ensures q == Min(o.remaining, resting[0].order.remaining) && Traded(t.fills) == q
    ensures q == resting[0].order.remaining ==>
      Match(o, resting, symbol, trade)
        == Preceded(t, [resting[0].order.orderId], Match(After(o, q), resting[1..], symbol, trade + |t.fills|))
    ensures q < resting[0].order.remaining ==>
      Match(o, resting, symbol, trade)
        == Matched(After(o, q), [Reduced(resting[0], q)] + resting[1..], t.fills, t.reports, [])
  {
    t, q := MatchResting(o, resting[0].order, symbol, trade), Min(o.remaining, resting[0].order.remaining);
    OneMatch(o, resting[0].order, symbol, trade);
  }

  lemma ReducedVolume(resting: seq<Node>, q: nat)
    requires resting != [] && q <= resting[0].order.remaining
    ensures Volume(resting) == Volume([Reduced(resting[0], q)] + resting[1..]) + q
  {
    assert ([Reduced(resting[0], q)] + resting[1..])[1..] == resting[1..];
  }

  /** The incoming order itself only loses quantity, as much as was traded, and as much as the
      resting side loses: nothing is created or destroyed by matching. */
  lemma {:induction false} MatchConserves(o: Order, resting: seq<Node>, symbol: Symbol, trade: nat)
    ensures var m := Match(o, resting, symbol, trade);
      && m.incoming == o.(remaining := m.incoming.remaining)
      && o.remaining == m.incoming.remaining + Traded(m.fills)
      && Volume(resting) == Volume(m.resting) + Traded(m.fills)
    decreases |resting|
  {
    if GoesOn(o, resting) {
      var t, q := MatchUnfolds(o, resting, symbol, trade);
      if q == resting[0].order.remaining {
        var rest := Match(After(o, q), resting[1..], symbol, trade + |t.fills|);
        MatchConserves(After(o, q), resting[1..], symbol, trade + |t.fills|);
        TradedConcat(t.fills, rest.fills);
        assert Match(o, resting, symbol, trade).fills == t.fills + rest.fills;
      } else {
        ReducedVolume(resting, q);
      }
    }
  }

  /** Matching stops only when the order is done, nobody is left, or the best price is worse than its
      limit, if it has one: a market order goes on. */
  lemma {:induction false} MatchIsExhaustive(o: Order, resting: seq<Node>, symbol: Symbol, trade: nat)
    ensures var m := Match(o, resting, symbol, trade);
      || m.incoming.remaining == 0 || m.resting == []
      || (o.kind == Limit &&
            if o.side.Buy? then o.price < m.resting[0].order.price else m.resting[0].order.price < o.price)
    decreases |resting|
  {
    if GoesOn(o, resting) {
      var t, q := MatchUnfolds(o, resting, symbol, trade);
      if q == resting[0].order.remaining {
        MatchIsExhaustive(After(o, q), resting[1..], symbol, trade + |t.fills|);
      }
    }
  }

  /** How much the orders have that o may trade with, from the best one on. */
  function Reach(o: Order, resting: seq<Node>): nat {
    if resting == [] || !Crosses(o, resting[0].order.price) then 0
    else resting[0].order.remaining + Reach(o, resting[1..])
  }

  lemma {:induction false} ReachAfter(o: Order, q: nat, resting: seq<Node>)
    requires q <= o.remaining
    ensures Reach(After(o, q), resting) == Reach(o, resting)
  {
    if resting != [] {
      ReachAfter(o, q, resting[1..]);
    }
  }

  /** What matching leaves of an order is known before: what it asks for beyond what it can reach. */
  lemma {:induction false} MatchLeavesTheRest(o: Order, resting: seq<Node>, symbol: Symbol, trade: nat)
    ensures Match(o, resting, symbol, trade).incoming.remaining == Max(0, o.remaining - Reach(o, resting))
    decreases |resting|
  {
    if GoesOn(o, resting) {
      var t, q := MatchUnfolds(o, resting, symbol, trade);
      if q == resting[0].order.remaining {
        ReachAfter(o, q, resting[1..]);
        MatchLeavesTheRest(After(o, q), resting[1..], symbol, trade + |t.fills|);
      }
    }
  }

  /** A market order can reach everything there is, whatever its price field says. */
  lemma {:induction false} MarketReachesAll(o: Order, resting: seq<Node>)
    requires o.kind == Market
    ensures Reach(o, resting) == Volume(resting)
  {
    if resting != [] {
      MarketReachesAll(o, resting[1..]);
    }
  }

  /** The resting orders at prices within a limit. */
  function PricedWithin(side: Side, limit: nat, resting: seq<Node>): seq<Node> {
    if resting == [] then []
    else
      var price := resting[0].order.price;
      (if (if side.Buy? then price <= limit else limit <= price) then [resting[0]] else [])
      + PricedWithin(side, limit, resting[1..])
  }

  /** A limit order can reach what is priced at its limit or better for it, and nothing else. */
  lemma {:induction false} LimitReachesWithin(o: Order, resting: seq<Node>, nextNode: nat)
    requires o.kind == Limit && SideGood(o.side.Other(), resting, nextNode)
    ensures Reach(o, resting) == Volume(PricedWithin(o.side, o.price, resting))
  {
    if resting != [] {
      var tail := resting[1..];
      LimitReachesWithin(o, tail, nextNode);
      if Crosses(o, resting[0].order.price) {
        assert ([resting[0]] + PricedWithin(o.side, o.price, tail))[1..] == PricedWithin(o.side, o.price, tail);
      } else {
        forall i | 0 <= i < |tail|
          ensures if o.side.Buy? then o.price < tail[i].order.price else tail[i].order.price < o.price
        {
          assert Ahead(o.side.Other(), resting[0], resting[i + 1]);
        }
        NothingWithin(o.side, o.price, tail);
      }
    }
  }

  lemma {:induction false} NothingWithin(side: Side, limit: nat, resting: seq<Node>)
    requires forall i | 0 <= i < |resting| ::
      if side.Buy? then limit < resting[i].order.price else resting[i].order.price < limit
    ensures PricedWithin(side, limit, resting) == []
  {
    if resting != [] {
      NothingWithin(side, limit, resting[1..]);
    }
  }

  /** The order would accept a resting order's price. */
  predicate Accepts(o: Order, price: nat) {
    match (o.kind, o.side)
    case (Market, _) => true
    case (Limit, Buy) => price <= o.price
    case (Limit, Sell) => o.price <= price
  }

  /** What the first i have. */
  function VolumeAhead(nodes: seq<Node>, i: nat): nat
    requires i <= |nodes|
  {
    if i == 0 then 0 else nodes[0].order.remaining + VolumeAhead(nodes[1..], i - 1)
  }

  /** What the i-th resting order gets, without walking: it is hit if and only if its price is accepted
      and those before it leave something of the incoming order; it then trades what is left, up to all
      it has. */
  predicate Allocated(fills: seq<Fill>, o: Order, resting: seq<Node>, i: nat)
    requires i < |resting|
  {
    var ahead := VolumeAhead(resting, i);
    && (i < |fills| <==> Accepts(o, resting[i].order.price) && ahead < o.remaining)
    && (i < |fills| ==> fills[i].quantity == Min(resting[i].order.remaining, o.remaining - ahead))
  }

  lemma AllocatedBehind(f: Fill, fills: seq<Fill>, o: Order, resting: seq<Node>, i: nat)
    requires 0 < i < |resting| && f.quantity == resting[0].order.remaining <= o.remaining
    requires Allocated(fills, After(o, f.quantity), resting[1..], i - 1)
    ensures Allocated([f] + fills, o, resting, i)
  {
  }

  lemma {:induction false} AllocationIsExact(o: Order, resting: seq<Node>, symbol: Symbol, trade: nat, next: nat,
                                             i: nat)
    requires SideGood(o.side.Other(), resting, next) && i < |resting|
    ensures Allocated(Match(o, resting, symbol, trade).fills, o, resting, i)
    decreases |resting|
  {
    if GoesOn(o, resting) {
      var t, q := MatchUnfolds(o, resting, symbol, trade);
      assert t.fills == [t.fills[0]] + [] && t.fills[0].quantity == q;
      if i > 0 && q == resting[0].order.remaining {
        AllocationIsExact(After(o, q), resting[1..], symbol, trade + 1, next, i - 1);
        AllocatedBehind(t.fills[0], Match(After(o, q), resting[1..], symbol, trade + 1).fills, o, resting, i);
      } else if i > 0 {
        AllocatedAlone(t.fills[0], o, resting, i);
      } else {
        AllocatedFirst(Match(o, resting, symbol, trade).fills, o, resting);
      }
    } else {
      NoneAllocated(o, resting, next, i);
    }
  }

  lemma AllocatedFirst(fills: seq<Fill>, o: Order, resting: seq<Node>)
    requires GoesOn(o, resting) && fills != [] && fills[0].quantity == Min(o.remaining, resting[0].order.remaining)
    ensures Allocated(fills, o, resting, 0)
  {
  }

  lemma AllocatedAlone(f: Fill, o: Order, resting: seq<Node>, i: nat)
    requires 0 < i < |resting| && o.remaining <= resting[0].order.remaining
    ensures Allocated([f], o, resting, i)
  {
  }

  lemma NoneAllocated(o: Order, resting: seq<Node>, next: nat, i: nat)
    requires SideGood(o.side.Other(), resting, next) && i < |resting| && !GoesOn(o, resting)
    ensures Allocated([], o, resting, i)
  {
    assert i > 0 ==> Ahead(o.side.Other(), resting[0], resting[i]);
  }

  /** A fill between the incoming order and a resting one: it names both, trades something the
      resting order has, is inside both limits, and is at the resting price if that order is older. */
  predicate FillFits(f: Fill, o: Order, n: Node, tradeId: nat, symbol: Symbol) {
    && f.tradeId == tradeId && f.symbol == symbol
    && (f.buyOrderId, f.sellOrderId)
       == (if o.side.Buy? then (o.orderId, n.order.orderId) else (n.order.orderId, o.orderId))
    && 0 < f.quantity <= n.order.remaining
    && Crosses(o, n.order.price)
    && (o.kind == Limit ==>
          if o.side.Buy? then n.order.price <= f.price <= o.price else o.price <= f.price <= n.order.price)
    && (n.order.timestamp < o.timestamp ==> f.price == n.order.price)
  }

  /** The queue afterwards: the first |gone| orders have left, and if there was one more fill the
      next order has been reduced, which only happens if the incoming order is then done. */
  ghost predicate TakesPrefix(m: Matched, resting: seq<Node>) {
    var k := |m.gone|;
    && k <= |m.fills| <= k + 1 && |m.fills| <= |resting|
    && (forall i | 0 <= i < k ::
          m.gone[i] == resting[i].order.orderId && m.fills[i].quantity == resting[i].order.remaining)
    && (if |m.fills| == k then m.resting == resting[k..]
        else
          && m.incoming.remaining == 0
          && m.fills[k].quantity < resting[k].order.remaining
          && m.resting == [Reduced(resting[k], m.fills[k].quantity)] + resting[k + 1..])
  }

  /** Price-time priority: the fills are against the first orders of the queue, one each and in
      order, and every order but the last one hit is filled completely before the next is touched. */
  lemma MatchTakesPrefix(o: Order, resting: seq<Node>, symbol: Symbol, trade: nat)
    requires AllLive(resting, o.side.Other())
    ensures TakesPrefix(Match(o, resting, symbol, trade), resting)
    ensures AllFit(Match(o, resting, symbol, trade).fills, o, resting, trade, symbol)
  {
    MatchGoesToTheFront(o, resting, symbol, trade);
    MatchFits(o, resting, symbol, trade);
  }

  lemma {:induction false} MatchGoesToTheFront(o: Order, resting: seq<Node>, symbol: Symbol, trade: nat)
    requires AllLive(resting, o.side.Other())
    ensures TakesPrefix(Match(o, resting, symbol, trade), resting)
    decreases |resting|
  {
    if GoesOn(o, resting) {
      var t, q := MatchUnfolds(o, resting, symbol, trade);
      FirstFillFits(o, resting[0], symbol, trade);
      if q == resting[0].order.remaining {
        var rest := Match(After(o, q), resting[1..], symbol, trade + 1);
        MatchGoesToTheFront(After(o, q), resting[1..], symbol, trade + 1);
        PrefixExtends(t, resting[0].order.orderId, rest, resting);
      } else {
        PartTakesPrefix(o, resting, t, q);
      }
    } else {
      StopTakesPrefix(o, resting);
    }
  }

  lemma {:induction false} MatchFits(o: Order, resting: seq<Node>, symbol: Symbol, trade: nat)
    requires AllLive(resting, o.side.Other())
    ensures AllFit(Match(o, resting, symbol, trade).fills, o, resting, trade, symbol)
    decreases |resting|
  {
    if GoesOn(o, resting) {
      var t, q := MatchUnfolds(o, resting, symbol, trade);
      FirstFillFits(o, resting[0], symbol, trade);
      if q == resting[0].order.remaining {
        MatchFits(After(o, q), resting[1..], symbol, trade + 1);
        var rest := Match(After(o, q), resting[1..], symbol, trade + 1);
        FitsExtends(o, After(o, q), t.fills, rest.fills, resting, trade, symbol);
      }
    }
  }

  lemma StopTakesPrefix(o: Order, resting: seq<Node>)
    ensures TakesPrefix(Matched(o, resting, [], [], []), resting)
  {
  }

  lemma PartTakesPrefix(o: Order, resting: seq<Node>, t: Trade, q: nat)
    requires resting != [] && |t.fills| == 1 && t.fills[0].quantity == q == o.remaining < resting[0].order.remaining
    ensures TakesPrefix(Matched(After(o, q), [Reduced(resting[0], q)] + resting[1..], t.fills, t.reports, []), resting)
  {
  }

  ghost predicate AllFit(fills: seq<Fill>, o: Order, resting: seq<Node>, trade: nat, symbol: Symbol) {
    |fills| <= |resting| && forall i | 0 <= i < |fills| :: FillFits(fills[i], o, resting[i], trade + i, symbol)
  }

  lemma FirstFillFits(o: Order, n: Node, symbol: Symbol, trade: nat)
    requires o.remaining > 0 && n.order.remaining > 0 && n.order.side == o.side.Other() && Crosses(o, n.order.price)
    ensures var t := MatchResting(o, n.order, symbol, trade);
      && |t.fills| == 1 && FillFits(t.fills[0], o, n, trade, symbol)
      && t.fills[0].quantity == Min(o.remaining, n.order.remaining)
  {
  }

  lemma FitsExtends(o: Order, o': Order, first: seq<Fill>, fills: seq<Fill>, resting: seq<Node>, trade: nat,
                    symbol: Symbol)
    requires resting != [] && |first| == 1 && FillFits(first[0], o, resting[0], trade, symbol)
    requires o' == o.(remaining := o'.remaining)
    requires AllFit(fills, o', resting[1..], trade + 1, symbol)
    ensures AllFit(first + fills, o, resting, trade, symbol)
  {
    forall i | 0 <= i < |fills| + 1
      ensures FillFits((first + fills)[i], o, resting[i], trade + i, symbol)
    {
      if i > 0 {
        assert FillFits(fills[i - 1], o', resting[1..][i - 1], trade + 1 + (i - 1), symbol);
      }
    }
  }

  lemma PrefixExtends(t: Trade, id: nat, rest: Matched, resting: seq<Node>)
    requires resting != [] && |t.fills| == 1
    requires t.fills[0].quantity == resting[0].order.remaining && id == resting[0].order.orderId
    requires TakesPrefix(rest, resting[1..])
    ensures TakesPrefix(Preceded(t, [id], rest), resting)
  {
    var m := Preceded(t, [id], rest);
    forall i | 0 <= i < |m.gone|
      ensures m.gone[i] == resting[i].order.orderId && m.fills[i].quantity == resting[i].order.remaining
    {
      if i > 0 {
        assert m.gone[i] == rest.gone[i - 1] && m.fills[i] == rest.fills[i - 1] && resting[i] == resting[1..][i - 1];
      }
    }
    var k := |rest.gone|;
    if |rest.fills| == k {
      assert resting[1..][k..] == resting[k + 1..];
    } else {
      assert resting[1..][k + 1..] == resting[k + 2..];
    }
  }

  // ---------------------------------------------------------------- who is told

  /** The report tells an order's owner of a fill: the order as it was submitted, what the fill was, how
      much is left after it, and whether the order is done. */
  predicate Tells(r: Report, o: Order, left: int, f: Fill) {
    && r.orderId == o.orderId && r.symbol == o.symbol && r.side == o.side && r.clientId == o.clientId
    && r.price == o.price && r.quantity == o.quantity
    && r.lastQty == f.quantity && r.lastPx == f.price && r.reason == ""
    && r.remaining == left && r.status == if left == 0 then Filled else PartiallyFilled
  }

  /** Both parties to a fill are told, the buyer first. */
  predicate TellsBoth(buyers: Report, sellers: Report, o: Order, left: int, resting: Order, f: Fill) {
    if o.side.Buy? then Tells(buyers, o, left, f) && Tells(sellers, resting, resting.remaining - f.quantity, f)
    else Tells(buyers, resting, resting.remaining - f.quantity, f) && Tells(sellers, o, left, f)
  }

  /** Two reports to a fill: the incoming order has left what all fills so far leave of it. */
  ghost predicate ReportsMirror(reports: seq<Report>, fills: seq<Fill>, o: Order, resting: seq<Node>) {
    && |reports| == 2 * |fills| && |fills| <= |resting|
    && forall i | 0 <= i < |fills| :: TellsBoth(reports[2 * i], reports[2 * i + 1], o,
                                                o.remaining - Traded(fills[..i + 1]), resting[i].order, fills[i])
  }

  lemma OneMatchMirrors(o: Order, n: Node, symbol: Symbol, trade: nat)
    requires o.remaining > 0 && n.order.remaining > 0
    ensures var t, q := MatchResting(o, n.order, symbol, trade), Min(o.remaining, n.order.remaining);
      && |t.fills| == 1 && |t.reports| == 2 && t.fills[0].quantity == q
      && TellsBoth(t.reports[0], t.reports[1], o, o.remaining - q, n.order, t.fills[0])
  {
  }

  lemma TradedSoFar(f: Fill, fills: seq<Fill>, i: nat)
    requires i <= |fills|
    ensures Traded(([f] + fills)[..i + 1]) == f.quantity + Traded(fills[..i])
  {
    assert ([f] + fills)[..i + 1] == [f] + fills[..i];
    TradedConcat([f], fills[..i]);
  }

  lemma MirrorJoins(o: Order, r: seq<Report>, f: Fill, reports: seq<Report>, fills: seq<Fill>, resting: seq<Node>)
    requires |r| == 2 && resting != [] && f.quantity <= o.remaining
    requires TellsBoth(r[0], r[1], o, o.remaining - f.quantity, resting[0].order, f)
    requires ReportsMirror(reports, fills, After(o, f.quantity), resting[1..])
    ensures ReportsMirror(r + reports, [f] + fills, o, resting)
  {
    forall i | 0 <= i < |fills| + 1
      ensures TellsBoth((r + reports)[2 * i], (r + reports)[2 * i + 1], o,
                        o.remaining - Traded(([f] + fills)[..i + 1]), resting[i].order, ([f] + fills)[i])
    {
      TradedSoFar(f, fills, i);
      if i > 0 {
        LaterReports(r, reports, i);
        LaterIsTold(o, f.quantity, reports, fills, resting[1..], i - 1);
      }
    }
  }

  lemma LaterReports(r: seq<Report>, reports: seq<Report>, i: nat)
    requires |r| == 2 && 0 < i && 2 * i < |reports| + 1
    ensures (r + reports)[2 * i] == reports[2 * (i - 1)] && (r + reports)[2 * i + 1] == reports[2 * (i - 1) + 1]
  {
  }

  lemma LaterIsTold(o: Order, q: nat, reports: seq<Report>, fills: seq<Fill>, resting: seq<Node>, j: nat)
    requires q <= o.remaining && ReportsMirror(reports, fills, After(o, q), resting) && j < |fills|
    ensures TellsBoth(reports[2 * j], reports[2 * j + 1], o, o.remaining - (q + Traded(fills[..j + 1])),
                      resting[j].order, fills[j])
  {
    assert TellsBoth(reports[2 * j], reports[2 * j + 1], After(o, q), After(o, q).remaining - Traded(fills[..j + 1]),
                     resting[j].order, fills[j]);
  }

  lemma {:induction false} TwoReportsToAFill(o: Order, resting: seq<Node>, symbol: Symbol, trade: nat)
    ensures var m := Match(o, resting, symbol, trade); |m.reports| == 2 * |m.fills|
    decreases |resting|
  {
    if GoesOn(o, resting) {
      var t, q := MatchUnfolds(o, resting, symbol, trade);
      if q == resting[0].order.remaining {
        TwoReportsToAFill(After(o, q), resting[1..], symbol, trade + |t.fills|);
      }
    }
  }

  /** Both parties to every fill are told of it, with what it leaves of their orders, and nobody is told
      of anything else. */
  lemma {:induction false} ReportsMirrorFills(o: Order, resting: seq<Node>, symbol: Symbol, trade: nat)
    requires AllLive(resting, o.side.Other())
    ensures var m := Match(o, resting, symbol, trade); ReportsMirror(m.reports, m.fills, o, resting)
    decreases |resting|
  {
    if GoesOn(o, resting) {
      var t, q := MatchUnfolds(o, resting, symbol, trade);
      OneMatchMirrors(o, resting[0], symbol, trade);
      assert t.fills == [t.fills[0]] + [];
      if q == resting[0].order.remaining {
        var rest := Match(After(o, q), resting[1..], symbol, trade + |t.fills|);
        ReportsMirrorFills(After(o, q), resting[1..], symbol, trade + |t.fills|);
        MirrorJoins(o, t.reports, t.fills[0], rest.reports, rest.fills, resting);
      } else {
        MirrorJoins(o, t.reports, t.fills[0], [], [], resting);
      }
    }
  }
}
