/**
 * One side of the order book as the source keeps it: a map from price to a list of orders, in the
 * map's iteration order, best price first.  Reading its lists one after the other gives the
 * priority queue of the book model, and the map's operations are the queue's.
 */
module LevelModel {
  import opened ExchangeTypes
  import opened MatchingModel
  import opened BookModel

  datatype Level = Level(price: nat, queue: seq<Node>)

  function Flat(levels: seq<Level>): seq<Node> {
    if levels == [] then [] else levels[0].queue + Flat(levels[1..])
  }

  predicate AllAt(queue: seq<Node>, price: nat) {
    forall i | 0 <= i < |queue| :: queue[i].order.price == price
  }

  ghost predicate Shaped(side: Side, levels: seq<Level>) {
    && (forall i | 0 <= i < |levels| :: levels[i].queue != [] && AllAt(levels[i].queue, levels[i].price))
    && (forall i, j | 0 <= i < j < |levels| :: Better(side, levels[i].price, levels[j].price))
  }

  ghost function Prices(levels: seq<Level>): set<nat> {
    set l | l in levels :: l.price
  }

  /** levels[price].push_back(n), where [] makes an empty list for a new price. */
  function Pushed(side: Side, levels: seq<Level>, n: Node): seq<Level> {
    if levels == [] || Better(side, n.order.price, levels[0].price) then [Level(n.order.price, [n])] + levels
    else if levels[0].price == n.order.price then [Level(n.order.price, levels[0].queue + [n])] + levels[1..]
    else [levels[0]] + Pushed(side, levels[1..], n)
  }

  /** Erasing a list node at a price, and the price with it if its list is then empty. */
  function Erased(levels: seq<Level>, price: nat, id: nat): seq<Level> {
    if levels == [] then []
    else if levels[0].price == price then
      var queue := Without(levels[0].queue, id);
      if queue == [] then levels[1..] else [Level(price, queue)] + levels[1..]
    else [levels[0]] + Erased(levels[1..], price, id)
  }

  lemma {:induction false} PlacedPast(side: Side, front: seq<Node>, back: seq<Node>, n: Node)
    requires forall i | 0 <= i < |front| :: !Better(side, n.order.price, front[i].order.price)
    ensures Placed(side, front + back, n) == front + Placed(side, back, n)
  {
    if front == [] {
      assert front + back == back;
    } else {
      PlacedPast(side, front[1..], back, n);
      assert (front + back)[1..] == front[1..] + back;
    }
  }

  lemma {:induction false} WithoutOf(front: seq<Node>, back: seq<Node>, id: nat)
    ensures Without(front + back, id)
         == if Lookup(front, id).Some? then Without(front, id) + back else front + Without(back, id)
    ensures Lookup(front + back, id) == if Lookup(front, id).Some? then Lookup(front, id) else Lookup(back, id)
  {
    if front == [] {
      assert front + back == back;
    } else {
      WithoutOf(front[1..], back, id);
      assert (front + back)[1..] == front[1..] + back;
    }
  }

  lemma FlatHead(levels: seq<Level>, side: Side)
    requires Shaped(side, levels) && levels != []
    ensures Flat(levels) != [] && Flat(levels)[0].order.price == levels[0].price
  {
  }

  /** A level in front of levels with worse prices. */
  lemma ShapedWithHead(side: Side, head: Level, tail: seq<Level>)
    requires Shaped(side, tail) && head.queue != [] && AllAt(head.queue, head.price)
    requires forall p | p in Prices(tail) :: Better(side, head.price, p)
    ensures Shaped(side, [head] + tail)
    ensures Prices([head] + tail) == {head.price} + Prices(tail)
  {
    forall j | 0 <= j < |tail|
      ensures Better(side, head.price, tail[j].price)
    {
      assert tail[j] in tail && tail[j].price in Prices(tail);
    }
    assert forall l :: l in [head] + tail <==> l == head || l in tail;
  }

  lemma ShapedTail(side: Side, levels: seq<Level>)
    requires Shaped(side, levels) && levels != []
    ensures Shaped(side, levels[1..]) && levels == [levels[0]] + levels[1..]
    ensures Prices(levels) == {levels[0].price} + Prices(levels[1..])
    ensures forall p | p in Prices(levels[1..]) :: Better(side, levels[0].price, p)
  {
    assert forall l :: l in levels <==> l == levels[0] || l in levels[1..];
  }

  lemma {:induction false} PushedShaped(side: Side, levels: seq<Level>, n: Node)
    requires Shaped(side, levels)
    ensures Shaped(side, Pushed(side, levels, n))
    ensures Prices(Pushed(side, levels, n)) == Prices(levels) + {n.order.price}
  {
    if levels == [] {
      ShapedWithHead(side, Level(n.order.price, [n]), []);
    } else {
      ShapedTail(side, levels);
      if Better(side, n.order.price, levels[0].price) {
        ShapedWithHead(side, Level(n.order.price, [n]), levels);
      } else if levels[0].price == n.order.price {
        ShapedWithHead(side, Level(n.order.price, levels[0].queue + [n]), levels[1..]);
      } else {
        PushedShaped(side, levels[1..], n);
        ShapedWithHead(side, levels[0], Pushed(side, levels[1..], n));
      }
    }
  }

  lemma {:induction false} PushedFlat(side: Side, levels: seq<Level>, n: Node)
    requires Shaped(side, levels)
    ensures Flat(Pushed(side, levels, n)) == Placed(side, Flat(levels), n)
  {
    if levels == [] {
    } else if Better(side, n.order.price, levels[0].price) {
      FlatHead(levels, side);
    } else {
      PlacedPast(side, levels[0].queue, Flat(levels[1..]), n);
      assert Shaped(side, levels[1..]);
      if levels[0].price == n.order.price {
        if levels[1..] != [] {
          FlatHead(levels[1..], side);
          assert Better(side, levels[0].price, levels[1].price);
        }
      } else {
        PushedFlat(side, levels[1..], n);
      }
    }
  }

  lemma {:induction false} WithoutAt(queue: seq<Node>, price: nat, id: nat)
    requires AllAt(queue, price)
    ensures AllAt(Without(queue, id), price)
    ensures Lookup(queue, id).Some? ==> Lookup(queue, id).value.order.price == price
  {
    if queue != [] && queue[0].id != id {
      WithoutAt(queue[1..], price, id);
    }
  }

  lemma {:induction false} ErasedShaped(side: Side, levels: seq<Level>, price: nat, id: nat)
    requires Shaped(side, levels)
    ensures Shaped(side, Erased(levels, price, id))
    ensures Prices(Erased(levels, price, id)) <= Prices(levels)
  {
    if levels != [] {
      ShapedTail(side, levels);
      if levels[0].price == price {
        WithoutAt(levels[0].queue, price, id);
        if Without(levels[0].queue, id) != [] {
          ShapedWithHead(side, Level(price, Without(levels[0].queue, id)), levels[1..]);
        }
      } else {
        ErasedShaped(side, levels[1..], price, id);
        ShapedWithHead(side, levels[0], Erased(levels[1..], price, id));
      }
    }
  }

  /** Erasing a node under its own price takes it, and nothing else, out of the queue. */
  lemma {:induction false} ErasedFlat(side: Side, levels: seq<Level>, price: nat, id: nat)
    requires Shaped(side, levels)
    requires Lookup(Flat(levels), id).Some? && Lookup(Flat(levels), id).value.order.price == price
    ensures Flat(Erased(levels, price, id)) == Without(Flat(levels), id)
  {
    if levels != [] {
      var back := Flat(levels[1..]);
      assert Shaped(side, levels[1..]);
      WithoutOf(levels[0].queue, back, id);
      WithoutAt(levels[0].queue, levels[0].price, id);
      if levels[0].price == price {
        if Lookup(levels[0].queue, id).None? {
          NotFurtherOn(side, levels, id);
        }
      } else {
        ErasedFlat(side, levels[1..], price, id);
      }
    }
  }

  /** No level behind the first has orders at the first one's price. */
  lemma {:induction false} NotFurtherOn(side: Side, levels: seq<Level>, id: nat)
    requires Shaped(side, levels) && levels != []
    ensures var n := Lookup(Flat(levels[1..]), id); n.Some? ==> n.value.order.price != levels[0].price
    decreases |levels|
  {
    if |levels| > 1 {
      var shorter := [levels[0]] + levels[2..];
      WithoutOf(levels[1].queue, Flat(levels[2..]), id);
      WithoutAt(levels[1].queue, levels[1].price, id);
      assert levels[1..][1..] == levels[2..] == shorter[1..];
      NotFurtherOn(side, shorter, id);
    }
  }
}
