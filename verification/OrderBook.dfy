/**
 * OrderBook as an object: price levels with lists of orders, an index into the lists, and nested
 * loops over levels and lists.  Each operation is proved to do to the two priority queues what the
 * book model says.
 */
module OrderBooks {
  import opened Bytes
  import opened ExchangeTypes
  import opened MatchingModel
  import opened BookModel
  import opened LevelModel
  import opened BookLaws

  /** TradeIDGenerator. */
  class TradeIds {
    var counter: nat

    constructor ()
      ensures counter == 1
    {
      counter := 1;
    }

    method NextId() returns (id: nat)
      modifies this
      ensures id == old(counter) && counter == old(counter) + 1
    {
      id := counter;
      counter := counter + 1;
    }
  }

  /** MatchingEngine::matchOrders, drawing a trade id only if something is traded. */
  method MatchTwo(buy: Order, sell: Order, symbol: Symbol, ids: TradeIds) returns (t: Trade)
    modifies ids
    ensures t == MatchOrders(buy, sell, symbol, old(ids.counter))
    ensures ids.counter == old(ids.counter) + |t.fills|
  {
    var quantity := Min(buy.remaining, sell.remaining);
    if quantity == 0 {
      return Trade(buy, sell, [], []);
    }
    var id := ids.NextId();
    var price := if sell.timestamp < buy.timestamp then sell.price else buy.price;
    var fill := Fill(id, buy.orderId, sell.orderId, symbol, price, quantity);
    var buy' := buy.(remaining := buy.remaining - quantity);
    var sell' := sell.(remaining := sell.remaining - quantity);
    var buyReport := Report(buy'.orderId, buy'.symbol, buy'.side,
                            if buy'.remaining == 0 then Filled else PartiallyFilled, buy'.price, buy'.quantity,
                            buy'.remaining, quantity, price, "", buy'.clientId);
    var sellReport := Report(sell'.orderId, sell'.symbol, sell'.side,
                             if sell'.remaining == 0 then Filled else PartiallyFilled, sell'.price, sell'.quantity,
                             sell'.remaining, quantity, price, "", sell'.clientId);
    t := Trade(buy', sell', [fill], [buyReport, sellReport]);
  }

  /** matchOrders with the incoming order on its own side. */
  method MatchSides(o: Order, resting: Order, symbol: Symbol, ids: TradeIds) returns (t: Trade)
    modifies ids
    ensures t == MatchResting(o, resting, symbol, old(ids.counter))
    ensures ids.counter == old(ids.counter) + |t.fills|
  {
    if o.side.Buy? {
      t := MatchTwo(o, resting, symbol, ids);
    } else {
      t := MatchTwo(resting, o, symbol, ids);
    }
  }

  /** What the walk amounts to when some of it has been done already. */
  ghost function Continued(fills: seq<Fill>, reports: seq<Report>, gone: seq<nat>, m: Matched): Matched {
    m.(fills := fills + m.fills, reports := reports + m.reports, gone := gone + m.gone)
  }

  lemma ContinuedTwice(f: seq<Fill>, r: seq<Report>, g: seq<nat>, f': seq<Fill>, r': seq<Report>, g': seq<nat>,
                       m: Matched)
    ensures Continued(f, r, g, Continued(f', r', g', m)) == Continued(f + f', r + r', g + g', m)
  {
    assert f + (f' + m.fills) == f + f' + m.fills;
    assert r + (r' + m.reports) == r + r' + m.reports;
    assert g + (g' + m.gone) == g + g' + m.gone;
  }

  /** The list after its front order has been matched. */
  function NextQueue(queue: seq<Node>, resting: Order): seq<Node>
    requires queue != []
  {
    if resting.remaining == 0 then queue[1..] else [queue[0].(order := resting)] + queue[1..]
  }

  predicate AtSamePrices(a: seq<Node>, b: seq<Node>)
    requires |a| == |b|
  {
    forall i | 0 <= i < |a| :: a[i].order.price == b[i].order.price
  }

  /** One turn of the inner loop is one step of the walk. */
  lemma WalkStep(incoming: Order, queue: seq<Node>, back: seq<Node>, symbol: Symbol, trade: nat)
    requires incoming.remaining > 0 && queue != [] && Crosses(incoming, queue[0].order.price)
    ensures var t := MatchResting(incoming, queue[0].order, symbol, trade);
      var incoming', resting := IncomingOf(incoming, t), RestingOf(incoming, t);
      Match(incoming, queue + back, symbol, trade)
        == Continued(t.fills, t.reports, if resting.remaining == 0 then [queue[0].order.orderId] else [],
                     Match(incoming', NextQueue(queue, resting) + back, symbol, trade + |t.fills|))
  {
    assert (queue + back)[0] == queue[0] && (queue + back)[1..] == queue[1..] + back;
    var t, q := MatchUnfolds(incoming, queue + back, symbol, trade);
    OneMatch(incoming, queue[0].order, symbol, trade);
    var resting := RestingOf(incoming, t);
    assert t.fills + [] == t.fills && t.reports + [] == t.reports;
    if resting.remaining > 0 {
      assert NextQueue(queue, resting) + back == [queue[0].(order := resting)] + (queue[1..] + back);
    }
  }

  lemma IdsJoin(index: map<nat, Entry>, a: seq<nat>, b: seq<nat>)
    ensures index - Ids(a) - Ids(b) == index - Ids(a + b)
  {
    assert Ids(a + b) == Ids(a) + Ids(b);
  }

  class OrderBook {
    const symbol: Symbol
    var buys: seq<Level>
    var sells: seq<Level>
    var index: map<nat, Entry>
    var nextNode: nat

    ghost function State(): Book
      reads this
    {
      Book(Flat(buys), Flat(sells), index, nextNode)
    }

    ghost predicate Valid()
      reads this
    {
      Shaped(Buy, buys) && Shaped(Sell, sells) && Good(State())
    }

    constructor (symbol: Symbol)
      ensures Valid() && State() == BookModel.EMPTY && this.symbol == symbol
    {
      this.symbol, buys, sells, index, nextNode := symbol, [], [], map[], 0;
    }

    function Levels(side: Side): seq<Level>
      reads this
    {
      if side.Buy? then buys else sells
    }

    /** One turn of the inner loop: match with the front of the list, and drop it if it is filled. */
    method MatchFront(o: Order, queue: seq<Node>, ghost back: seq<Node>, ids: TradeIds)
      returns (o': Order, queue': seq<Node>, fills: seq<Fill>, reports: seq<Report>, ghost left: seq<nat>)
      requires o.remaining > 0 && queue != [] && Crosses(o, queue[0].order.price)
      modifies this`index, ids
      ensures o' == o.(remaining := o'.remaining)
      ensures queue' == queue[1..] || (o'.remaining == 0 && |queue'| == |queue| && AtSamePrices(queue, queue'))
      ensures index == old(index) - Ids(left)
      ensures ids.counter == old(ids.counter) + |fills|
      ensures Match(o, queue + back, symbol, old(ids.counter))
           == Continued(fills, reports, left, Match(o', queue' + back, symbol, ids.counter))
    {
      var front := queue[0].order;
      WalkStep(o, queue, back, symbol, ids.counter);
      OneMatch(o, front, symbol, ids.counter);
      var t := MatchSides(o, front, symbol, ids);
      var resting := RestingOf(o, t);
      o', fills, reports, left := IncomingOf(o, t), t.fills, t.reports, [];
      queue' := NextQueue(queue, resting);
      if resting.remaining == 0 {
        index := index - {resting.orderId};
        left := [resting.orderId];
        assert Ids(left) == {resting.orderId};
      }
    }

    /** Match an incoming order against the list of the best level until one of them is used up. */
    method WalkLevel(order: Order, level: Level, ghost back: seq<Node>, ids: TradeIds)
      returns (incoming: Order, queue: seq<Node>, fills: seq<Fill>, reports: seq<Report>, ghost gone: seq<nat>)
      requires AllAt(level.queue, level.price) && Crosses(order, level.price)
      modifies this`index, ids
      ensures incoming.remaining == 0 || queue == []
      ensures incoming == order.(remaining := incoming.remaining)
      ensures AllAt(queue, level.price)
      ensures index == old(index) - Ids(gone)
      ensures ids.counter == old(ids.counter) + |fills|
      ensures Match(order, level.queue + back, symbol, old(ids.counter))
           == Continued(fills, reports, gone, Match(incoming, queue + back, symbol, ids.counter))
    {
      incoming, queue, fills, reports, gone := order, level.queue, [], [], [];
      ghost var whole := Match(order, level.queue + back, symbol, ids.counter);
      while incoming.remaining > 0 && queue != []
        invariant incoming == order.(remaining := incoming.remaining)
        invariant AllAt(queue, level.price)
        invariant index == old(index) - Ids(gone)
        invariant ids.counter == old(ids.counter) + |fills|
        invariant whole == Continued(fills, reports, gone, Match(incoming, queue + back, symbol, ids.counter))
        decreases |queue|, incoming.remaining
      {
        ghost var left: seq<nat>;
        var f, r;
        incoming, queue, f, r, left := MatchFront(incoming, queue, back, ids);
        IdsJoin(old(index), gone, left);
        ContinuedTwice(fills, reports, gone, f, r, left, Match(incoming, queue + back, symbol, ids.counter));
        fills, reports, gone := fills + f, reports + r, gone + left;
      }
    }

    /** One turn of the outer loop: the best level loses its front orders, and goes if it is empty. */
    method WalkBest(order: Order, levels: seq<Level>, ids: TradeIds)
      returns (incoming: Order, levels': seq<Level>, fills: seq<Fill>, reports: seq<Report>, ghost gone: seq<nat>)
      requires Shaped(order.side.Other(), levels) && levels != [] && Crosses(order, levels[0].price)
      modifies this`index, ids
      ensures Shaped(order.side.Other(), levels')
      ensures |levels'| == |levels| - 1 || (incoming.remaining == 0 && |levels'| == |levels|)
      ensures incoming == order.(remaining := incoming.remaining)
      ensures index == old(index) - Ids(gone)
      ensures ids.counter == old(ids.counter) + |fills|
      ensures Match(order, Flat(levels), symbol, old(ids.counter))
           == Continued(fills, reports, gone, Match(incoming, Flat(levels'), symbol, ids.counter))
    {
      var queue;
      ShapedTail(order.side.Other(), levels);
      incoming, queue, fills, reports, gone := WalkLevel(order, levels[0], Flat(levels[1..]), ids);
      if queue == [] {
        levels' := levels[1..];
        assert queue + Flat(levels[1..]) == Flat(levels[1..]);
      } else {
        levels' := [Level(levels[0].price, queue)] + levels[1..];
        ShapedWithHead(order.side.Other(), levels'[0], levels[1..]);
        assert levels'[1..] == levels[1..];
      }
    }

    /** The outer loop: level after level of the opposite side, best price first, for as long as the
        incoming order has quantity left and may trade at the level's price. */
    method WalkLevels(order: Order, from: seq<Level>, ids: TradeIds)
      returns (incoming: Order, levels: seq<Level>, fills: seq<Fill>, reports: seq<Report>, ghost gone: seq<nat>)
      requires Shaped(order.side.Other(), from)
      modifies this`index, ids
      ensures Shaped(order.side.Other(), levels)
      ensures incoming == order.(remaining := incoming.remaining)
      ensures index == old(index) - Ids(gone)
      ensures ids.counter == old(ids.counter) + |fills|
      ensures Match(order, Flat(from), symbol, old(ids.counter))
           == Matched(incoming, Flat(levels), fills, reports, gone)
    {
      var i := 0;
      incoming, levels, fills, reports, gone := order, from, [], [], [];
      ghost var whole := Match(order, Flat(from), symbol, ids.counter);
      while incoming.remaining > 0 && i < |levels|
        invariant 0 <= i <= |levels| && (incoming.remaining > 0 ==> i == 0)
        invariant Shaped(order.side.Other(), levels)
        invariant incoming == order.(remaining := incoming.remaining)
        invariant index == old(index) - Ids(gone)
        invariant ids.counter == old(ids.counter) + |fills|
        invariant whole == Continued(fills, reports, gone, Match(incoming, Flat(levels), symbol, ids.counter))
        decreases |levels| - i
      {
        var price := levels[i].price;
        if order.kind == Limit && (if order.side.Buy? then order.price < price else order.price > price) {
          break;
        }
        ghost var left: seq<nat>;
        var levels', f, r;
        incoming, levels', f, r, left := WalkBest(incoming, levels, ids);
        IdsJoin(old(index), gone, left);
        ContinuedTwice(fills, reports, gone, f, r, left, Match(incoming, Flat(levels'), symbol, ids.counter));
        fills, reports, gone := fills + f, reports + r, gone + left;
        if |levels'| == |levels| {
          i := i + 1;
        }
        levels := levels';
      }
      WalkEnds(incoming, levels, symbol, ids.counter);
      ContinuedByNothing(fills, reports, gone, incoming, Flat(levels));
    }

    /** submitOrderInternal. */
    method SubmitInternal(order: Order, ids: TradeIds) returns (fills: seq<Fill>, reports: seq<Report>)
      requires Valid()
      modifies this, ids
      ensures Outcome(State(), fills, reports, true) == Submit(old(State()), order, symbol, old(ids.counter))
      ensures ids.counter == old(ids.counter) + |fills|
      ensures Valid()
    {
      SubmitGood(State(), order, symbol, ids.counter);
      ghost var gone: seq<nat>;
      var incoming: Order;
      if order.side.Buy? {
        incoming, sells, fills, reports, gone := WalkLevels(order, sells, ids);
      } else {
        incoming, buys, fills, reports, gone := WalkLevels(order, buys, ids);
      }
      assert Walk(old(State()), order, symbol, old(ids.counter)).0 == State();
      if incoming.remaining > 0 {
        if incoming.kind == Limit {
          PutToRest(incoming);
          if incoming.remaining == incoming.quantity {
            reports := reports + [StatusReport(incoming, New, "")];
          }
        } else {
          reports := reports + [StatusReport(incoming, Cancelled, EXPIRED)];
        }
      }
    }

    /** The order goes to the back of the list at its price, and the index learns where. */
    method PutToRest(order: Order)
      requires Shaped(Buy, buys) && Shaped(Sell, sells)
      modifies this
      ensures State() == Rest(old(State()), order)
      ensures Shaped(Buy, buys) && Shaped(Sell, sells)
    {
      var n := Node(nextNode, order);
      if order.side.Buy? {
        PushedShaped(Buy, buys, n);
        PushedFlat(Buy, buys, n);
        buys := Pushed(Buy, buys, n);
      } else {
        PushedShaped(Sell, sells, n);
        PushedFlat(Sell, sells, n);
        sells := Pushed(Sell, sells, n);
      }
      index := index[order.orderId := Entry(order.side, order.price, nextNode)];
      nextNode := nextNode + 1;
    }

    method SubmitOrder(order: Order, ids: TradeIds) returns (fills: seq<Fill>, reports: seq<Report>)
      requires Valid()
      modifies this, ids
      ensures Outcome(State(), fills, reports, true) == Step(old(State()), SubmitOp(order), symbol, old(ids.counter))
      ensures ids.counter == old(ids.counter) + |fills|
      ensures Valid()
    {
      fills, reports := SubmitInternal(order, ids);
    }

    /** Erase the list node an index entry points at, and the entry. */
    method EraseIndexed(orderId: nat)
      requires Valid() && orderId in index
      modifies this
      ensures State() == Removed(old(State()), orderId)
      ensures Valid()
    {
      ghost var before := State();
      RemovedGood(before, orderId);
      var entry := index[orderId];
      assert EntrySound(before, orderId);
      ErasedShaped(entry.side, Levels(entry.side), entry.price, entry.node);
      ErasedFlat(entry.side, Levels(entry.side), entry.price, entry.node);
      if entry.side.Buy? {
        buys := Erased(buys, entry.price, entry.node);
      } else {
        sells := Erased(sells, entry.price, entry.node);
      }
      index := index - {orderId};
      assert State() == Removed(before, orderId);
    }

    method CancelOrder(orderId: nat) returns (reports: seq<Report>, found: bool)
      requires Valid()
      modifies this
      ensures Outcome(State(), [], reports, found) == Step(old(State()), CancelOp(orderId), symbol, 0)
      ensures Valid()
    {
      if orderId !in index {
        return [], false;
      }
      var entry := index[orderId];
      assert EntrySound(State(), orderId);
      var clientId := Lookup(Flat(Levels(entry.side)), entry.node).value.order.clientId;
      EraseIndexed(orderId);
      reports := [Report(orderId, symbol, entry.side, Cancelled, entry.price, 0, 0, 0, 0, "", clientId)];
      found := true;
    }

    method ModifyOrder(request: ModifyRequest, ids: TradeIds)
      returns (fills: seq<Fill>, reports: seq<Report>, found: bool)
      requires Valid()
      modifies this, ids
      ensures Outcome(State(), fills, reports, found) == Step(old(State()), ModifyOp(request), symbol, old(ids.counter))
      ensures ids.counter == old(ids.counter) + |fills|
      ensures Valid()
    {
      if request.orderId !in index {
        return [], [], false;
      }
      var entry := index[request.orderId];
      assert EntrySound(State(), request.orderId);
      var existing := Lookup(Flat(Levels(entry.side)), entry.node).value.order;
      EraseIndexed(request.orderId);
      existing := existing.(price := request.price, quantity := request.quantity, remaining := request.quantity,
                            timestamp := request.timestamp);
      fills, reports := SubmitInternal(existing, ids);
      found := true;
    }

    /** What a worker does with a request for this book. */
    method Perform(op: Op, ids: TradeIds) returns (fills: seq<Fill>, reports: seq<Report>, found: bool)
      requires Valid()
      modifies this, ids
      ensures Outcome(State(), fills, reports, found) == Step(old(State()), op, symbol, old(ids.counter))
      ensures ids.counter == old(ids.counter) + |fills|
      ensures Valid()
    {
      match op {
        case SubmitOp(o) =>
          fills, reports := SubmitOrder(o, ids);
          found := true;
        case CancelOp(id) =>
          reports, found := CancelOrder(id);
          fills := [];
        case ModifyOp(r) => fills, reports, found := ModifyOrder(r, ids);
      }
    }

    method QueryOrder(orderId: nat) returns (order: Option<Order>)
      requires Valid()
      ensures order.Some? <==> orderId in index
      ensures order.Some? ==> Target(State(), orderId).Some? && Target(State(), orderId).value.order == order.value
    {
      if orderId !in index {
        return None;
      }
      assert EntrySound(State(), orderId);
      var n := Lookup(Flat(Levels(index[orderId].side)), index[orderId].node);
      order := Some(n.value.order);
    }

    /** The best bid's price, or 0 without bids: no resting bid is higher. */
    method BestBid() returns (price: nat)
      requires Valid()
      ensures State().bids == [] ==> price == 0
      ensures State().bids != [] ==>
        price == State().bids[0].order.price && forall n | n in State().bids :: n.order.price <= price
    {
      if buys == [] {
        return 0;
      }
      FlatHead(buys, Buy);
      price := buys[0].price;
    }

    /** The best ask's price, or 0 without asks: no resting ask is lower. */
    method BestAsk() returns (price: nat)
      requires Valid()
      ensures State().asks == [] ==> price == 0
      ensures State().asks != [] ==>
        price == State().asks[0].order.price && forall n | n in State().asks :: n.order.price >= price
    {
      if sells == [] {
        return 0;
      }
      FlatHead(sells, Sell);
      price := sells[0].price;
    }
  }

  lemma ContinuedByNothing(f: seq<Fill>, r: seq<Report>, g: seq<nat>, o: Order, resting: seq<Node>)
    ensures Continued(f, r, g, Matched(o, resting, [], [], [])) == Matched(o, resting, f, r, g)
  {
  }

  lemma WalkEnds(o: Order, levels: seq<Level>, symbol: Symbol, trade: nat)
    requires Shaped(o.side.Other(), levels)
    requires o.remaining == 0 || levels == [] || !Crosses(o, levels[0].price)
    ensures Match(o, Flat(levels), symbol, trade) == Matched(o, Flat(levels), [], [], [])
  {
    if levels != [] {
      FlatHead(levels, o.side.Other());
    }
  }
}
