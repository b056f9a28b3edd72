/**
 * The order book of one symbol as two priority queues and an index, what submit, cancel and modify
 * do to it, and what every run of them keeps.
 */
module BookModel {
  import opened Bytes
  import opened ExchangeTypes
  import opened MatchingModel

  datatype Entry = Entry(side: Side, price: nat, node: nat)

  datatype Book = Book(bids: seq<Node>, asks: seq<Node>, index: map<nat, Entry>, nextNode: nat) {
    function SideOf(side: Side): seq<Node> { if side.Buy? then bids else asks }

    function WithSide(side: Side, nodes: seq<Node>): Book {
      if side.Buy? then this.(bids := nodes) else this.(asks := nodes)
    }
  }

  const EMPTY: Book := Book([], [], map[], 0)

  /** What a call leaves behind: the book, the fills and reports, and whether it found its order. */
  datatype Outcome = Outcome(book: Book, fills: seq<Fill>, reports: seq<Report>, found: bool)

  const EXPIRED: string := "Market Order Expired / Unfilled Qty"

  function StatusReport(o: Order, status: Status, reason: string): Report {
    Report(o.orderId, o.symbol, o.side, status, o.price, o.quantity, o.remaining, 0, 0, reason, o.clientId)
  }

  /** Put a node where its price and arrival place it. */
  function Placed(side: Side, nodes: seq<Node>, n: Node): seq<Node> {
    if nodes == [] || Better(side, n.order.price, nodes[0].order.price) then [n] + nodes
    else [nodes[0]] + Placed(side, nodes[1..], n)
  }

  /** Take the node with an id out. */
  function Without(nodes: seq<Node>, id: nat): seq<Node> {
    if nodes == [] then []
    else if nodes[0].id == id then nodes[1..]
    else [nodes[0]] + Without(nodes[1..], id)
  }

  function Ids(ids: seq<nat>): set<nat> { set i | i in ids }

  /** The book after the walk through the opposite side, and the walk itself. */
  function Walk(b: Book, o: Order, symbol: Symbol, trade: nat): (Book, Matched) {
    var m := Match(o, b.SideOf(o.side.Other()), symbol, trade);
    (b.WithSide(o.side.Other(), m.resting).(index := b.index - Ids(m.gone)), m)
  }

  /** What is left of an order comes to rest at the back of its price. */
  function Rest(b: Book, o: Order): Book {
    b.WithSide(o.side, Placed(o.side, b.SideOf(o.side), Node(b.nextNode, o)))
     .(index := b.index[o.orderId := Entry(o.side, o.price, b.nextNode)], nextNode := b.nextNode + 1)
  }

  function Submit(b: Book, o: Order, symbol: Symbol, trade: nat): Outcome {
    var (b', m) := Walk(b, o, symbol, trade);
    if m.incoming.remaining == 0 then Outcome(b', m.fills, m.reports, true)
    else if o.kind == Limit then
      Outcome(Rest(b', m.incoming), m.fills,
              if m.incoming.remaining == o.quantity then m.reports + [StatusReport(m.incoming, New, "")] else m.reports,
              true)
    else
      Outcome(b', m.fills, m.reports + [StatusReport(m.incoming, Cancelled, EXPIRED)], true)
  }

  function Lookup(nodes: seq<Node>, id: nat): Option<Node> {
    if nodes == [] then None
    else if nodes[0].id == id then Some(nodes[0])
    else Lookup(nodes[1..], id)
  }

  /** The node an index entry points at. */
  function Target(b: Book, orderId: nat): Option<Node>
    requires orderId in b.index
  {
    var e := b.index[orderId];
    Lookup(b.SideOf(e.side), e.node)
  }

  /** An index entry points at a node that exists and holds the order the entry says. */
  predicate EntrySound(b: Book, orderId: nat) {
    orderId in b.index &&
    var n := Target(b, orderId);
    n.Some? && n.value.order.orderId == orderId && n.value.order.price == b.index[orderId].price
  }

  ghost predicate IndexSound(b: Book) {
    forall id {:trigger EntrySound(b, id)} | id in b.index :: EntrySound(b, id)
  }

  function Removed(b: Book, orderId: nat): Book
    requires orderId in b.index
  {
    var e := b.index[orderId];
    b.WithSide(e.side, Without(b.SideOf(e.side), e.node)).(index := b.index - {orderId})
  }

  function Cancel(b: Book, orderId: nat, symbol: Symbol): Outcome
    requires orderId in b.index ==> EntrySound(b, orderId)
  {
    if orderId !in b.index then Outcome(b, [], [], false)
    else
      var e, o := b.index[orderId], Target(b, orderId).value.order;
      Outcome(Removed(b, orderId), [],
              [Report(orderId, symbol, e.side, Cancelled, e.price, 0, 0, 0, 0, "", o.clientId)], true)
  }

  /** modify is removal followed by a fresh submission under the old id, side and client. */
  function Modify(b: Book, r: ModifyRequest, symbol: Symbol, trade: nat): Outcome
    requires r.orderId in b.index ==> EntrySound(b, r.orderId)
  {
    if r.orderId !in b.index then Outcome(b, [], [], false)
    else
      var o := Target(b, r.orderId).value.order;
      Submit(Removed(b, r.orderId), Changed(o, r), symbol, trade)
  }

  function Changed(o: Order, r: ModifyRequest): Order {
    o.(price := r.price, quantity := r.quantity, remaining := r.quantity, timestamp := r.timestamp)
  }

  // ---------------------------------------------------------------- the invariant

  ghost predicate NodesApart(b: Book) {
    forall i, j | 0 <= i < |b.bids| && 0 <= j < |b.asks| :: b.bids[i].id != b.asks[j].id
  }

  /** No resting bid reaches a resting ask. */
  predicate Uncrossed(b: Book) {
    b.bids != [] && b.asks != [] ==> b.bids[0].order.price < b.asks[0].order.price
  }

  ghost predicate Good(b: Book) {
    && SideGood(Buy, b.bids, b.nextNode)
    && SideGood(Sell, b.asks, b.nextNode)
    && NodesApart(b)
    && Uncrossed(b)
    && IndexSound(b)
  }

  // ---------------------------------------------------------------- queues

  lemma {:induction false} PlacedGood(side: Side, nodes: seq<Node>, n: Node, next: nat)
    requires SideGood(side, nodes, next) && n.id == next && Resting(side, n, next + 1)
    ensures var r := Placed(side, nodes, n);
      && |r| == |nodes| + 1 && SideGood(side, r, next + 1)
      && (forall i | 0 <= i < |r| :: r[i] == n || r[i] in nodes)
      && r[0] == (if nodes == [] || Better(side, n.order.price, nodes[0].order.price) then n else nodes[0])
  {
    var r := Placed(side, nodes, n);
    if nodes == [] {
    } else if Better(side, n.order.price, nodes[0].order.price) {
      forall i, j | 0 <= i < j < |r|
        ensures Ahead(side, r[i], r[j]) && r[i].id != r[j].id
      {
        if i == 0 && j > 1 {
          assert Ahead(side, nodes[0], nodes[j - 1]);
        }
      }
    } else {
      PlacedGood(side, nodes[1..], n, next);
      var tail := Placed(side, nodes[1..], n);
      forall i, j | 0 <= i < j < |r|
        ensures Ahead(side, r[i], r[j]) && r[i].id != r[j].id
      {
        if i == 0 {
          assert r[j] == tail[j - 1] && (tail[j - 1] == n || tail[j - 1] in nodes[1..]);
        } else {
          assert Ahead(side, tail[i - 1], tail[j - 1]);
        }
      }
    }
  }

  lemma {:induction false} WithoutGood(side: Side, nodes: seq<Node>, id: nat, next: nat)
    requires SideGood(side, nodes, next)
    ensures var r := Without(nodes, id);
      && SideGood(side, r, next)
      && (forall i | 0 <= i < |r| :: r[i] in nodes)
      && (r != [] ==> nodes != [] && (r[0] == nodes[0] || Ahead(side, nodes[0], r[0])))
  {
    if nodes != [] && nodes[0].id != id {
      WithoutGood(side, nodes[1..], id, next);
      var r, tail := Without(nodes, id), Without(nodes[1..], id);
      forall i, j | 0 <= i < j < |r|
        ensures Ahead(side, r[i], r[j]) && r[i].id != r[j].id
      {
        if i == 0 {
          assert tail[j - 1] in nodes[1..];
        } else {
          assert Ahead(side, tail[i - 1], tail[j - 1]);
        }
      }
    }
  }

  lemma {:induction false} PlacedVolume(side: Side, nodes: seq<Node>, n: Node)
    ensures Volume(Placed(side, nodes, n)) == Volume(nodes) + n.order.remaining
  {
    if nodes == [] || Better(side, n.order.price, nodes[0].order.price) {
      assert ([n] + nodes)[1..] == nodes;
    } else {
      PlacedVolume(side, nodes[1..], n);
      assert ([nodes[0]] + Placed(side, nodes[1..], n))[1..] == Placed(side, nodes[1..], n);
    }
  }

  lemma {:induction false} WithoutVolume(nodes: seq<Node>, id: nat)
    ensures Volume(nodes) == Volume(Without(nodes, id))
                             + (if Lookup(nodes, id).Some? then Lookup(nodes, id).value.order.remaining else 0)
  {
    if nodes != [] && nodes[0].id != id {
      WithoutVolume(nodes[1..], id);
      assert ([nodes[0]] + Without(nodes[1..], id))[1..] == Without(nodes[1..], id);
    }
  }

  lemma {:induction false} LookupPlaced(side: Side, nodes: seq<Node>, n: Node, id: nat)
    ensures id != n.id ==> Lookup(Placed(side, nodes, n), id) == Lookup(nodes, id)
    ensures Lookup(nodes, n.id).None? ==> Lookup(Placed(side, nodes, n), n.id) == Some(n)
  {
    if nodes == [] || Better(side, n.order.price, nodes[0].order.price) {
      assert ([n] + nodes)[1..] == nodes;
    } else {
      LookupPlaced(side, nodes[1..], n, id);
      assert ([nodes[0]] + Placed(side, nodes[1..], n))[1..] == Placed(side, nodes[1..], n);
    }
  }

  lemma {:induction false} LookupWithout(nodes: seq<Node>, gone: nat, id: nat)
    ensures id != gone ==> Lookup(Without(nodes, gone), id) == Lookup(nodes, id)
  {
    if nodes != [] && nodes[0].id != gone {
      LookupWithout(nodes[1..], gone, id);
      assert ([nodes[0]] + Without(nodes[1..], gone))[1..] == Without(nodes[1..], gone);
    }
  }

  lemma {:induction false} LookupIsMember(nodes: seq<Node>, id: nat)
    ensures var r := Lookup(nodes, id);
      if r.Some? then r.value in nodes && r.value.id == id else forall n | n in nodes :: n.id != id
  {
    if nodes != [] && nodes[0].id != id {
      LookupIsMember(nodes[1..], id);
    }
  }

  lemma {:induction false} MemberIsLookedUp(side: Side, nodes: seq<Node>, n: Node, next: nat)
    requires SideGood(side, nodes, next) && n in nodes
    ensures Lookup(nodes, n.id) == Some(n)
  {
    if nodes[0] != n {
      var k :| 0 <= k < |nodes| && nodes[k] == n;
      assert nodes[1..][k - 1] == n;
      MemberIsLookedUp(side, nodes[1..], n, next);
    }
  }

  /** A resting order found before the walk is found after it, unless its order id has left. */
  lemma {:induction false} LookupMatched(o: Order, resting: seq<Node>, symbol: Symbol, trade: nat, id: nat)
    requires Lookup(resting, id).Some?
    ensures var m, n := Match(o, resting, symbol, trade), Lookup(resting, id).value;
      n.order.orderId in m.gone ||
      (Lookup(m.resting, id).Some? &&
       var n' := Lookup(m.resting, id).value; n' == n.(order := n.order.(remaining := n'.order.remaining)))
    decreases |resting|
  {
    if GoesOn(o, resting) {
      var t, q := MatchUnfolds(o, resting, symbol, trade);
      if q == resting[0].order.remaining {
        if resting[0].id != id {
          LookupMatched(After(o, q), resting[1..], symbol, trade + |t.fills|, id);
        }
      } else {
        assert ([Reduced(resting[0], q)] + resting[1..])[1..] == resting[1..];
      }
    }
  }

  /** What is left after the walk is a suffix of what was resting, up to the head's quantity. */
  lemma MatchedElement(m: Matched, resting: seq<Node>, i: nat)
    requires TakesPrefix(m, resting) && i < |m.resting|
    ensures |m.gone| + i < |resting|
    ensures var x := resting[|m.gone| + i];
      && m.resting[i] == x.(order := x.order.(remaining := m.resting[i].order.remaining))
      && (x.order.remaining > 0 ==> m.resting[i].order.remaining > 0)
  {
  }

  /** So whoever is resting after the walk was resting before. */
  lemma WasResting(m: Matched, resting: seq<Node>, n: Node) returns (x: Node)
    requires TakesPrefix(m, resting) && n in m.resting
    ensures x in resting && n == x.(order := x.order.(remaining := n.order.remaining))
  {
    var i: nat :| i < |m.resting| && m.resting[i] == n;
    MatchedElement(m, resting, i);
    x := resting[|m.gone| + i];
  }

  /** What is left of a good side after the walk is good, and its head is no better than before. */
  lemma MatchedGood(o: Order, resting: seq<Node>, symbol: Symbol, trade: nat, next: nat)
    requires SideGood(o.side.Other(), resting, next)
    ensures var m := Match(o, resting, symbol, trade);
      && SideGood(o.side.Other(), m.resting, next)
      && (forall n | n in m.resting :: exists x :: x in resting && x.id == n.id && x.order.price == n.order.price)
      && (m.resting != [] ==>
            && resting != []
            && !Better(o.side.Other(), m.resting[0].order.price, resting[0].order.price))
  {
    var side, m := o.side.Other(), Match(o, resting, symbol, trade);
    assert AllLive(resting, side);
    MatchTakesPrefix(o, resting, symbol, trade);
    SuffixGood(side, m, resting, next);
    forall n | n in m.resting
      ensures exists x :: x in resting && x.id == n.id && x.order.price == n.order.price
    {
      var _ := WasResting(m, resting, n);
    }
  }

  lemma SuffixGood(side: Side, m: Matched, resting: seq<Node>, next: nat)
    requires SideGood(side, resting, next) && TakesPrefix(m, resting)
    ensures SideGood(side, m.resting, next)
    ensures m.resting != [] ==> resting != [] && !Better(side, m.resting[0].order.price, resting[0].order.price)
  {
    var k := |m.gone|;
    forall i | 0 <= i < |m.resting|
      ensures Resting(side, m.resting[i], next)
    {
      MatchedElement(m, resting, i);
      assert Resting(side, resting[k + i], next);
    }
    forall i, j | 0 <= i < j < |m.resting|
      ensures Ahead(side, m.resting[i], m.resting[j]) && m.resting[i].id != m.resting[j].id
    {
      MatchedElement(m, resting, i);
      MatchedElement(m, resting, j);
      assert Ahead(side, resting[k + i], resting[k + j]);
    }
    if m.resting != [] {
      MatchedElement(m, resting, 0);
      if k > 0 {
        assert Ahead(side, resting[0], resting[k]);
      }
    }
  }
}
