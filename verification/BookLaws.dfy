/** What every operation, and every run of operations, keeps of an order book. */
module BookLaws {
  import opened Bytes
  import opened ExchangeTypes
  import opened MatchingModel
  import opened BookModel

  // ---------------------------------------------------------------- the invariant

  lemma WalkGood(b: Book, o: Order, symbol: Symbol, trade: nat)
    requires Good(b)
    ensures var (b', m) := Walk(b, o, symbol, trade);
      && Good(b') && b'.nextNode == b.nextNode
      && (m.incoming.remaining == 0 || b'.SideOf(o.side.Other()) == []
          || !Crosses(o, b'.SideOf(o.side.Other())[0].order.price))
  {
    var opp := o.side.Other();
    var (b', m) := Walk(b, o, symbol, trade);
    MatchedGood(o, b.SideOf(opp), symbol, trade, b.nextNode);
    MatchIsExhaustive(o, b.SideOf(opp), symbol, trade);
    WalkIndexSound(b, o, symbol, trade);
  }

  lemma WalkIndexSound(b: Book, o: Order, symbol: Symbol, trade: nat)
    requires IndexSound(b)
    ensures IndexSound(Walk(b, o, symbol, trade).0)
  {
    var (b', m) := Walk(b, o, symbol, trade);
    forall id | id in b'.index
      ensures EntrySound(b', id)
    {
      assert EntrySound(b, id);
      if b.index[id].side == o.side.Other() {
        LookupMatched(o, b.SideOf(o.side.Other()), symbol, trade, b.index[id].node);
      }
    }
  }

  lemma RestGood(b: Book, o: Order)
    requires Good(b) && o.kind == Limit && o.remaining > 0
    requires var opp := b.SideOf(o.side.Other()); opp == [] || !Crosses(o, opp[0].order.price)
    ensures Good(Rest(b, o))
  {
    PlacedGood(o.side, b.SideOf(o.side), Node(b.nextNode, o), b.nextNode);
    RestIndexSound(b, o);
  }

  lemma RestIndexSound(b: Book, o: Order)
    requires SideGood(o.side, b.SideOf(o.side), b.nextNode)
    requires SideGood(o.side.Other(), b.SideOf(o.side.Other()), b.nextNode)
    requires IndexSound(b)
    ensures IndexSound(Rest(b, o))
  {
    var n, b' := Node(b.nextNode, o), Rest(b, o);
    LookupIsMember(b.SideOf(o.side), b.nextNode);
    forall id | id in b'.index
      ensures EntrySound(b', id)
    {
      if id == o.orderId {
        LookupPlaced(o.side, b.SideOf(o.side), n, b.nextNode);
      } else {
        assert EntrySound(b, id);
        var e := b.index[id];
        LookupIsMember(b.SideOf(e.side), e.node);
        LookupPlaced(o.side, b.SideOf(o.side), n, e.node);
      }
    }
  }

  lemma SubmitGood(b: Book, o: Order, symbol: Symbol, trade: nat)
    requires Good(b)
    ensures Good(Submit(b, o, symbol, trade).book)
  {
    WalkGood(b, o, symbol, trade);
    var (b', m) := Walk(b, o, symbol, trade);
    MatchConserves(o, b.SideOf(o.side.Other()), symbol, trade);
    if m.incoming.remaining > 0 && o.kind == Limit {
      RestGood(b', m.incoming);
    }
  }

  lemma RemovedGood(b: Book, orderId: nat)
    requires Good(b) && orderId in b.index
    ensures Good(Removed(b, orderId)) && Removed(b, orderId).nextNode == b.nextNode
  {
    var e, b' := b.index[orderId], Removed(b, orderId);
    WithoutGood(e.side, b.SideOf(e.side), e.node, b.nextNode);
    assert EntrySound(b, orderId);
    forall id | id in b'.index
      ensures EntrySound(b', id)
    {
      assert EntrySound(b, id);
      LookupWithout(b.SideOf(e.side), e.node, b.index[id].node);
    }
  }

  // ---------------------------------------------------------------- steps and runs

  datatype Op = SubmitOp(order: Order) | CancelOp(orderId: nat) | ModifyOp(request: ModifyRequest)

  function Step(b: Book, op: Op, symbol: Symbol, trade: nat): Outcome
    requires IndexSound(b)
  {
    match op
    case SubmitOp(o) => Submit(b, o, symbol, trade)
    case CancelOp(id) => assert id in b.index ==> EntrySound(b, id); Cancel(b, id, symbol)
    case ModifyOp(r) => assert r.orderId in b.index ==> EntrySound(b, r.orderId); Modify(b, r, symbol, trade)
  }

  lemma StepGood(b: Book, op: Op, symbol: Symbol, trade: nat)
    requires Good(b)
    ensures Good(Step(b, op, symbol, trade).book)
  {
    match op
    case SubmitOp(o) => SubmitGood(b, o, symbol, trade);
    case CancelOp(id) => if id in b.index { RemovedGood(b, id); }
    case ModifyOp(r) =>
      if r.orderId in b.index {
        assert EntrySound(b, r.orderId);
        RemovedGood(b, r.orderId);
        var o := Target(b, r.orderId).value.order;
        SubmitGood(Removed(b, r.orderId), Changed(o, r), symbol, trade);
      }
  }

  // ---------------------------------------------------------------- conservation of quantity

  /** What a submission brings in on a side, and what of it expires for want of a counterparty. */
  function Expired(b: Book, o: Order, symbol: Symbol, trade: nat): nat {
    var left := Match(o, b.SideOf(o.side.Other()), symbol, trade).incoming.remaining;
    if o.kind == Market then left else 0
  }

  function On(side: Side, o: Order, quantity: nat): nat { if o.side == side then quantity else 0 }

  lemma RestVolume(b: Book, o: Order, side: Side)
    ensures Volume(Rest(b, o).SideOf(side)) == Volume(b.SideOf(side)) + On(side, o, o.remaining)
  {
    PlacedVolume(o.side, b.SideOf(o.side), Node(b.nextNode, o));
  }

  /** A submission moves quantity between resting and traded, on both sides alike, and loses none. */
  lemma SubmitConserves(b: Book, o: Order, symbol: Symbol, trade: nat, side: Side)
    ensures var r := Submit(b, o, symbol, trade);
      Volume(b.SideOf(side)) + On(side, o, o.remaining)
      == Volume(r.book.SideOf(side)) + Traded(r.fills) + On(side, o, Expired(b, o, symbol, trade))
  {
    var (b', m) := Walk(b, o, symbol, trade);
    MatchConserves(o, b.SideOf(o.side.Other()), symbol, trade);
    RestVolume(b', m.incoming, side);
  }

  lemma RemovedConserves(b: Book, orderId: nat, side: Side)
    requires orderId in b.index && EntrySound(b, orderId)
    requires Target(b, orderId).value.order.side == b.index[orderId].side
    ensures var o := Target(b, orderId).value.order;
      Volume(b.SideOf(side)) == Volume(Removed(b, orderId).SideOf(side)) + On(side, o, o.remaining)
  {
    WithoutVolume(b.SideOf(b.index[orderId].side), b.index[orderId].node);
  }

  /** A run with its totals by side: quantity brought in by submissions and modifications,
      quantity withdrawn (cancelled, replaced by a modification, or expired), and quantity traded. */
  datatype Totals = Totals(bidIn: nat, askIn: nat, bidOut: nat, askOut: nat, traded: nat) {
    function In(side: Side): nat { if side.Buy? then bidIn else askIn }
    function Out(side: Side): nat { if side.Buy? then bidOut else askOut }
  }

  const NO_TOTALS: Totals := Totals(0, 0, 0, 0, 0)

  function Brought(t: Totals, o: Order): Totals {
    t.(bidIn := t.bidIn + On(Buy, o, o.remaining), askIn := t.askIn + On(Sell, o, o.remaining))
  }

  function Withdrawn(t: Totals, o: Order, quantity: nat): Totals {
    t.(bidOut := t.bidOut + On(Buy, o, quantity), askOut := t.askOut + On(Sell, o, quantity))
  }

  function SubmitTotals(t: Totals, b: Book, o: Order, symbol: Symbol, trade: nat): Totals {
    Withdrawn(Brought(t, o), o, Expired(b, o, symbol, trade))
      .(traded := t.traded + Traded(Submit(b, o, symbol, trade).fills))
  }

  function Count(t: Totals, b: Book, op: Op, symbol: Symbol, trade: nat): Totals
    requires IndexSound(b)
  {
    match op
    case SubmitOp(o) => SubmitTotals(t, b, o, symbol, trade)
    case CancelOp(id) =>
      if id !in b.index then t
      else assert EntrySound(b, id); var o := Target(b, id).value.order; Withdrawn(t, o, o.remaining)
    case ModifyOp(r) =>
      if r.orderId !in b.index then t
      else
        assert EntrySound(b, r.orderId);
        var o := Target(b, r.orderId).value.order;
        SubmitTotals(Withdrawn(t, o, o.remaining), Removed(b, r.orderId), Changed(o, r), symbol, trade)
  }

  /** On each side, everything that came in is resting, traded or withdrawn. */
  predicate Accounted(b: Book, t: Totals) {
    && t.bidIn == Volume(b.bids) + t.traded + t.bidOut
    && t.askIn == Volume(b.asks) + t.traded + t.askOut
  }

  lemma NothingIsAccounted()
    ensures Good(BookModel.EMPTY) && Accounted(BookModel.EMPTY, NO_TOTALS)
  {
  }

  lemma SubmitAccounted(b: Book, t: Totals, o: Order, symbol: Symbol, trade: nat)
    requires Accounted(b, t)
    ensures Accounted(Submit(b, o, symbol, trade).book, SubmitTotals(t, b, o, symbol, trade))
  {
    SubmitConserves(b, o, symbol, trade, Buy);
    SubmitConserves(b, o, symbol, trade, Sell);
  }

  lemma TargetIsResting(b: Book, orderId: nat)
    requires Good(b) && orderId in b.index
    ensures EntrySound(b, orderId) && Resting(b.index[orderId].side, Target(b, orderId).value, b.nextNode)
  {
    assert EntrySound(b, orderId);
    LookupIsMember(b.SideOf(b.index[orderId].side), b.index[orderId].node);
  }

  lemma RemovedAccounted(b: Book, t: Totals, orderId: nat)
    requires Good(b) && orderId in b.index && Accounted(b, t)
    ensures EntrySound(b, orderId)
    ensures var o := Target(b, orderId).value.order; Accounted(Removed(b, orderId), Withdrawn(t, o, o.remaining))
  {
    TargetIsResting(b, orderId);
    RemovedConserves(b, orderId, Buy);
    RemovedConserves(b, orderId, Sell);
  }

  lemma StepAccounted(b: Book, t: Totals, op: Op, symbol: Symbol, trade: nat)
    requires Good(b) && Accounted(b, t)
    ensures Accounted(Step(b, op, symbol, trade).book, Count(t, b, op, symbol, trade))
  {
    match op
    case SubmitOp(o) => SubmitAccounted(b, t, o, symbol, trade);
    case CancelOp(id) => if id in b.index { RemovedAccounted(b, t, id); }
    case ModifyOp(r) =>
      if r.orderId in b.index {
        RemovedAccounted(b, t, r.orderId);
        var o := Target(b, r.orderId).value.order;
        SubmitAccounted(Removed(b, r.orderId), Withdrawn(t, o, o.remaining), Changed(o, r), symbol, trade);
      }
  }

  /** A run of a book: the trade ids it draws are whatever the shared generator gives, so they are
      part of the input. */
  datatype Timed = Timed(op: Op, trade: nat)

  function Run(b: Book, ops: seq<Timed>, symbol: Symbol): (r: Book)
    requires Good(b)
    ensures Good(r)
    decreases |ops|
  {
    if ops == [] then b
    else
      StepGood(b, ops[0].op, symbol, ops[0].trade);
      Run(Step(b, ops[0].op, symbol, ops[0].trade).book, ops[1..], symbol)
  }

  function RunTotals(t: Totals, b: Book, ops: seq<Timed>, symbol: Symbol): Totals
    requires Good(b)
    decreases |ops|
  {
    if ops == [] then t
    else
      StepGood(b, ops[0].op, symbol, ops[0].trade);
      RunTotals(Count(t, b, ops[0].op, symbol, ops[0].trade),
                Step(b, ops[0].op, symbol, ops[0].trade).book, ops[1..], symbol)
  }

  /**
   * Over every run of submissions, cancellations and modifications, of any orders at all: the book
   * stays sorted by price and arrival, uncrossed, with only live limit orders in it and every index
   * entry pointing at the order it names; and on each side every unit of quantity that ever came in
   * is resting, traded or withdrawn.
   */
  lemma {:induction false} QuantityIsConserved(b: Book, t: Totals, ops: seq<Timed>, symbol: Symbol)
    requires Good(b) && Accounted(b, t)
    ensures Good(Run(b, ops, symbol)) && Accounted(Run(b, ops, symbol), RunTotals(t, b, ops, symbol))
    decreases |ops|
  {
    if ops != [] {
      StepGood(b, ops[0].op, symbol, ops[0].trade);
      StepAccounted(b, t, ops[0].op, symbol, ops[0].trade);
      QuantityIsConserved(Step(b, ops[0].op, symbol, ops[0].trade).book,
                          Count(t, b, ops[0].op, symbol, ops[0].trade), ops[1..], symbol);
    }
  }

  // ---------------------------------------------------------------- every resting order can be reached

  predicate Reachable(b: Book, n: Node) {
    n.order.orderId in b.index && b.index[n.order.orderId] == Entry(n.order.side, n.order.price, n.id)
  }

  /** Every resting order is the one its id leads to, so it can be queried, cancelled and modified. */
  ghost predicate Complete(b: Book) {
    forall side, n {:trigger n in b.SideOf(side)} | n in b.SideOf(side) :: Reachable(b, n)
  }

  /** An order id that is still resting after the walk has not left. */
  lemma StillHere(b: Book, o: Order, symbol: Symbol, trade: nat, side: Side, n: Node, j: nat)
    requires Good(b) && Complete(b)
    requires var (b', m) := Walk(b, o, symbol, trade); n in b'.SideOf(side) && j < |m.gone|
    ensures Match(o, b.SideOf(o.side.Other()), symbol, trade).gone[j] != n.order.orderId
  {
    var opp := o.side.Other();
    var resting := b.SideOf(opp);
    var (b', m) := Walk(b, o, symbol, trade);
    assert AllLive(resting, opp);
    MatchTakesPrefix(o, resting, symbol, trade);
    assert resting[j] in b.SideOf(opp) && Reachable(b, resting[j]);
    if side == opp {
      var i :| 0 <= i < |m.resting| && m.resting[i] == n;
      MatchedElement(m, resting, i);
      var x := resting[|m.gone| + i];
      assert x in b.SideOf(opp) && Reachable(b, x);
      assert Ahead(opp, resting[j], x);
    } else {
      assert n in b.SideOf(side) && Reachable(b, n);
    }
  }

  lemma WalkComplete(b: Book, o: Order, symbol: Symbol, trade: nat)
    requires Good(b) && Complete(b)
    ensures Complete(Walk(b, o, symbol, trade).0)
  {
    var opp := o.side.Other();
    var (b', m) := Walk(b, o, symbol, trade);
    forall side, n | n in b'.SideOf(side)
      ensures Reachable(b', n)
    {
      WasReachable(b, o, symbol, trade, side, n);
      forall j | 0 <= j < |m.gone|
        ensures m.gone[j] != n.order.orderId
      {
        StillHere(b, o, symbol, trade, side, n, j);
      }
    }
  }

  lemma WasReachable(b: Book, o: Order, symbol: Symbol, trade: nat, side: Side, n: Node)
    requires Good(b) && Complete(b) && n in Walk(b, o, symbol, trade).0.SideOf(side)
    ensures Reachable(b, n)
  {
    var resting := b.SideOf(o.side.Other());
    assert AllLive(resting, o.side.Other());
    MatchTakesPrefix(o, resting, symbol, trade);
    if side == o.side.Other() {
      var x := WasResting(Match(o, resting, symbol, trade), resting, n);
      assert x in b.SideOf(side) && Reachable(b, x);
    } else {
      assert n in b.SideOf(side);
    }
  }

  lemma {:induction false} PlacedHolds(side: Side, nodes: seq<Node>, n: Node)
    ensures forall x :: x in Placed(side, nodes, n) <==> x == n || x in nodes
  {
    if nodes == [] || Better(side, n.order.price, nodes[0].order.price) {
    } else {
      PlacedHolds(side, nodes[1..], n);
      assert forall x :: x in nodes <==> x == nodes[0] || x in nodes[1..];
    }
  }

  lemma RestCompleteIff(b: Book, o: Order)
    requires Good(b) && Complete(b)
    ensures Complete(Rest(b, o)) <==> o.orderId !in b.index
  {
    var n, b' := Node(b.nextNode, o), Rest(b, o);
    PlacedHolds(o.side, b.SideOf(o.side), n);
    if o.orderId in b.index {
      assert EntrySound(b, o.orderId);
      var e := b.index[o.orderId];
      LookupIsMember(b.SideOf(e.side), e.node);
      var x := Target(b, o.orderId).value;
      assert x in b'.SideOf(e.side) && x.id < b.nextNode && !Reachable(b', x);
    } else {
      forall side, x | x in b'.SideOf(side)
        ensures Reachable(b', x)
      {
        if x != n {
          assert x in b.SideOf(side) && Reachable(b, x);
        } else {
          assert Reachable(b', n);
        }
      }
    }
  }

  /** The resting order with this id is one that o may trade with. */
  predicate MayTrade(b: Book, o: Order, id: nat) {
    id in b.index && b.index[id].side == o.side.Other() && Crosses(o, b.index[id].price)
  }

  /** What leaves the book in a walk that uses up everything o may trade with. */
  lemma ExhaustedWalk(b: Book, o: Order, symbol: Symbol, trade: nat, id: nat)
    requires Good(b) && Complete(b) && id in b.index && o.remaining > Reach(o, b.SideOf(o.side.Other()))
    ensures id in Match(o, b.SideOf(o.side.Other()), symbol, trade).gone <==> MayTrade(b, o, id)
  {
    var gone := Match(o, b.SideOf(o.side.Other()), symbol, trade).gone;
    if id in gone {
      var j: nat :| j < |gone| && gone[j] == id;
      GoneMayTrade(b, o, symbol, trade, j);
    }
    if MayTrade(b, o, id) {
      assert EntrySound(b, id);
      LookupIsMember(b.SideOf(o.side.Other()), b.index[id].node);
      var i: nat :| i < |b.SideOf(o.side.Other())| && b.SideOf(o.side.Other())[i] == Target(b, id).value;
      MatchLeavesTheRest(o, b.SideOf(o.side.Other()), symbol, trade);
      CrossingLeaves(o, b.SideOf(o.side.Other()), symbol, trade, i, b.nextNode);
    }
  }

  lemma GoneMayTrade(b: Book, o: Order, symbol: Symbol, trade: nat, j: nat)
    requires Good(b) && Complete(b) && j < |Match(o, b.SideOf(o.side.Other()), symbol, trade).gone|
    ensures MayTrade(b, o, Match(o, b.SideOf(o.side.Other()), symbol, trade).gone[j])
  {
    var resting := b.SideOf(o.side.Other());
    assert AllLive(resting, o.side.Other());
    MatchTakesPrefix(o, resting, symbol, trade);
    assert FillFits(Match(o, resting, symbol, trade).fills[j], o, resting[j], trade + j, symbol);
    assert resting[j] in b.SideOf(o.side.Other()) && Reachable(b, resting[j]);
  }

  /** When matching stops with something left, every order that crossed has left. */
  lemma CrossingLeaves(o: Order, resting: seq<Node>, symbol: Symbol, trade: nat, i: nat, next: nat)
    requires SideGood(o.side.Other(), resting, next) && i < |resting|
    requires Match(o, resting, symbol, trade).incoming.remaining > 0 && Crosses(o, resting[i].order.price)
    ensures resting[i].order.orderId in Match(o, resting, symbol, trade).gone
  {
    var m := Match(o, resting, symbol, trade);
    var k := |m.gone|;
    assert AllLive(resting, o.side.Other());
    MatchTakesPrefix(o, resting, symbol, trade);
    MatchIsExhaustive(o, resting, symbol, trade);
    assert k < i ==> Ahead(o.side.Other(), resting[k], resting[i]);
    if k <= i {
      assert false;
    }
    assert m.gone[i] == resting[i].order.orderId;
  }

  /** The order hides another: it comes to rest, under the id of an order that rests too. */
  predicate Hides(b: Book, o: Order) {
    && o.kind == Limit && o.remaining > Reach(o, b.SideOf(o.side.Other()))
    && o.orderId in b.index && !MayTrade(b, o, o.orderId)
  }

  /** A submission leaves every resting order reachable exactly if it does not ask for more than it
      can reach under the id of an order that it may not trade with. */
  lemma SubmitCompleteIff(b: Book, o: Order, symbol: Symbol, trade: nat)
    requires Good(b) && Complete(b)
    ensures Complete(Submit(b, o, symbol, trade).book) <==> !Hides(b, o)
  {
    var (b', m) := Walk(b, o, symbol, trade);
    WalkGood(b, o, symbol, trade);
    WalkComplete(b, o, symbol, trade);
    MatchConserves(o, b.SideOf(o.side.Other()), symbol, trade);
    MatchLeavesTheRest(o, b.SideOf(o.side.Other()), symbol, trade);
    if m.incoming.remaining > 0 && o.kind == Limit {
      RestCompleteIff(b', m.incoming);
      if o.orderId in b.index {
        ExhaustedWalk(b, o, symbol, trade, o.orderId);
      }
    }
  }

  lemma {:induction false} WithoutHolds(side: Side, nodes: seq<Node>, id: nat, next: nat)
    requires SideGood(side, nodes, next)
    ensures forall x :: x in Without(nodes, id) <==> x in nodes && x.id != id
  {
    if nodes != [] {
      assert forall x :: x in nodes <==> x == nodes[0] || x in nodes[1..];
      if nodes[0].id != id {
        WithoutHolds(side, nodes[1..], id, next);
      }
    }
  }

  lemma RemovedComplete(b: Book, orderId: nat)
    requires Good(b) && Complete(b) && orderId in b.index
    ensures Complete(Removed(b, orderId))
  {
    var e, b' := b.index[orderId], Removed(b, orderId);
    assert EntrySound(b, orderId);
    WithoutHolds(e.side, b.SideOf(e.side), e.node, b.nextNode);
    forall side, x | x in b'.SideOf(side)
      ensures Reachable(b', x)
    {
      assert x in b.SideOf(side) && Reachable(b, x);
    }
  }

  /** In a complete book a query by id finds exactly the resting order with that id, if there is one. */
  lemma QueryIsExact(b: Book, orderId: nat)
    requires Good(b) && Complete(b)
    ensures orderId in b.index <==> exists side, n :: n in b.SideOf(side) && n.order.orderId == orderId
    ensures forall side, n | n in b.SideOf(side) && n.order.orderId == orderId :: Target(b, orderId) == Some(n)
  {
    if orderId in b.index {
      TargetIsResting(b, orderId);
      var side := b.index[orderId].side;
      LookupIsMember(b.SideOf(side), b.index[orderId].node);
      assert Target(b, orderId).value in b.SideOf(side);
    }
    forall side, n | n in b.SideOf(side) && n.order.orderId == orderId
      ensures orderId in b.index && Target(b, orderId) == Some(n)
    {
      assert Reachable(b, n);
      MemberIsLookedUp(side, b.SideOf(side), n, b.nextNode);
    }
  }

  /** The ids a run submits, in order. */
  function SubmittedIds(ops: seq<Timed>): seq<nat> {
    if ops == [] then []
    else (if ops[0].op.SubmitOp? then [ops[0].op.order.orderId] else []) + SubmittedIds(ops[1..])
  }

  ghost predicate NoRepeats(ids: seq<nat>) {
    forall i, j | 0 <= i < j < |ids| :: ids[i] != ids[j]
  }

  lemma StepComplete(b: Book, op: Op, symbol: Symbol, trade: nat)
    requires Good(b) && Complete(b)
    requires op.SubmitOp? ==> op.order.orderId !in b.index
    ensures var b' := Step(b, op, symbol, trade).book;
      Complete(b') && b'.index.Keys <= b.index.Keys + if op.SubmitOp? then {op.order.orderId} else {}
  {
    match op
    case SubmitOp(o) =>
      SubmitCompleteIff(b, o, symbol, trade);
      MatchConserves(o, b.SideOf(o.side.Other()), symbol, trade);
    case CancelOp(id) => if id in b.index { RemovedComplete(b, id); }
    case ModifyOp(r) =>
      if r.orderId in b.index {
        assert EntrySound(b, r.orderId);
        RemovedGood(b, r.orderId);
        RemovedComplete(b, r.orderId);
        var b', o := Removed(b, r.orderId), Changed(Target(b, r.orderId).value.order, r);
        SubmitCompleteIff(b', o, symbol, trade);
        MatchConserves(o, b'.SideOf(o.side.Other()), symbol, trade);
      }
  }

  lemma FirstIsApart(id: nat, ids: seq<nat>)
    requires NoRepeats([id] + ids)
    ensures NoRepeats(ids) && id !in ids
  {
    var all := [id] + ids;
    forall i | 0 <= i < |ids|
      ensures ids[i] != id
    {
      assert all[0] != all[i + 1];
    }
    forall i, j | 0 <= i < j < |ids|
      ensures ids[i] != ids[j]
    {
      assert all[i + 1] != all[j + 1];
    }
  }

  lemma LaterIds(ops: seq<Timed>)
    requires ops != [] && NoRepeats(SubmittedIds(ops))
    ensures NoRepeats(SubmittedIds(ops[1..]))
    ensures forall id | id in SubmittedIds(ops[1..]) ::
      id in SubmittedIds(ops) && (ops[0].op.SubmitOp? ==> id != ops[0].op.order.orderId)
  {
    if ops[0].op.SubmitOp? {
      FirstIsApart(ops[0].op.order.orderId, SubmittedIds(ops[1..]));
    } else {
      assert SubmittedIds(ops) == SubmittedIds(ops[1..]);
    }
  }

  /**
   * Over every run that never submits one order id twice, which is what the risk check sees to,
   * every resting order stays reachable by its id.
   */
  lemma {:induction false} RestingOrdersStayReachable(b: Book, ops: seq<Timed>, symbol: Symbol)
    requires Good(b) && Complete(b)
    requires NoRepeats(SubmittedIds(ops)) && forall id | id in SubmittedIds(ops) :: id !in b.index
    ensures Complete(Run(b, ops, symbol))
    decreases |ops|
  {
    if ops != [] {
      var op := ops[0].op;
      StepGood(b, op, symbol, ops[0].trade);
      LaterIds(ops);
      if op.SubmitOp? {
        assert SubmittedIds(ops)[0] == op.order.orderId;
      }
      StepComplete(b, op, symbol, ops[0].trade);
      RestingOrdersStayReachable(Step(b, op, symbol, ops[0].trade).book, ops[1..], symbol);
    }
  }

  /** The step does not bring an order to rest under the id of another that rests. */
  predicate RestsUnderFreshId(b: Book, op: Op) {
    op.SubmitOp? ==> !Hides(b, op.order)
  }

  lemma StepCompleteIff(b: Book, op: Op, symbol: Symbol, trade: nat)
    requires Good(b) && Complete(b)
    ensures Complete(Step(b, op, symbol, trade).book) <==> RestsUnderFreshId(b, op)
  {
    if op.SubmitOp? {
      SubmitCompleteIff(b, op.order, symbol, trade);
    } else {
      StepComplete(b, op, symbol, trade);
    }
  }

  /** Every resting order can be reached at every moment of the run. */
  ghost predicate AlwaysComplete(b: Book, ops: seq<Timed>, symbol: Symbol)
    requires Good(b)
    decreases |ops|
  {
    Complete(b) &&
    (ops != [] ==>
       Good(Step(b, ops[0].op, symbol, ops[0].trade).book)
       && AlwaysComplete(Step(b, ops[0].op, symbol, ops[0].trade).book, ops[1..], symbol))
  }

  ghost predicate AlwaysUnderFreshIds(b: Book, ops: seq<Timed>, symbol: Symbol)
    requires Good(b)
    decreases |ops|
  {
    ops != [] ==>
      && RestsUnderFreshId(b, ops[0].op)
      && Good(Step(b, ops[0].op, symbol, ops[0].trade).book)
      && AlwaysUnderFreshIds(Step(b, ops[0].op, symbol, ops[0].trade).book, ops[1..], symbol)
  }

  /** From a book whose orders can all be reached, they can be throughout a run, whatever is
      submitted in it, exactly if no submission comes to rest under the id of an order that rests. */
  lemma {:induction false} StaysReachableIff(b: Book, ops: seq<Timed>, symbol: Symbol)
    requires Good(b) && Complete(b)
    ensures AlwaysComplete(b, ops, symbol) <==> AlwaysUnderFreshIds(b, ops, symbol)
    decreases |ops|
  {
    if ops != [] {
      var op, trade := ops[0].op, ops[0].trade;
      StepGood(b, op, symbol, trade);
      StepCompleteIff(b, op, symbol, trade);
      if RestsUnderFreshId(b, op) {
        StaysReachableIff(Step(b, op, symbol, trade).book, ops[1..], symbol);
      }
    }
  }

  // ---------------------------------------------------------------- who hears what

  /** A submission with all of its quantity remaining is answered by some report exactly if it asks
      for anything at all. */
  lemma SubmissionIsAnsweredIff(b: Book, o: Order, symbol: Symbol, trade: nat)
    requires o.remaining == o.quantity
    ensures Submit(b, o, symbol, trade).reports != [] <==> o.quantity > 0
  {
    var resting := b.SideOf(o.side.Other());
    var m := Match(o, resting, symbol, trade);
    MatchConserves(o, resting, symbol, trade);
    TwoReportsToAFill(o, resting, symbol, trade);
    if o.quantity == 0 {
      assert m.reports == [];
    } else if m.incoming.remaining == 0 {
      assert m.fills != [] && m.reports != [];
    }
  }

  /** So a modification to quantity zero takes the order out of the book without telling anyone;
      every other modification of a resting order is answered. */
  lemma ModificationIsAnsweredIff(b: Book, r: ModifyRequest, symbol: Symbol, trade: nat)
    requires Good(b) && r.orderId in b.index
    ensures var v := Step(b, ModifyOp(r), symbol, trade);
      && (v.reports != [] <==> r.quantity > 0)
      && (r.quantity == 0 ==> v.book == Removed(b, r.orderId))
  {
    TargetIsResting(b, r.orderId);
    var b', o := Removed(b, r.orderId), Changed(Target(b, r.orderId).value.order, r);
    SubmissionIsAnsweredIff(b', o, symbol, trade);
    if r.quantity == 0 {
      assert b'.index - Ids([]) == b'.index;
    }
  }

  /** If every resting order is older than the incoming one, each trade is at the resting price. */
  lemma OlderOrdersSetThePrice(b: Book, o: Order, symbol: Symbol, trade: nat)
    requires Good(b)
    requires forall n | n in b.SideOf(o.side.Other()) :: n.order.timestamp < o.timestamp
    ensures var fills := Submit(b, o, symbol, trade).fills;
      && |fills| <= |b.SideOf(o.side.Other())|
      && forall i | 0 <= i < |fills| :: fills[i].price == b.SideOf(o.side.Other())[i].order.price
  {
    var resting := b.SideOf(o.side.Other());
    assert AllLive(resting, o.side.Other());
    MatchTakesPrefix(o, resting, symbol, trade);
    var fills := Match(o, resting, symbol, trade).fills;
    forall i | 0 <= i < |fills|
      ensures fills[i].price == resting[i].order.price
    {
      assert resting[i] in b.SideOf(o.side.Other()) && FillFits(fills[i], o, resting[i], trade + i, symbol);
    }
  }
}
