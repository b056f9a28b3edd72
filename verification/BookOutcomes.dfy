/**
 * What a call to a book leads to, said in prices, volumes and the orders' own fields: who trades how
 * much, what comes to rest, what is left of a side, and who is told what.
 */
module BookOutcomes {
  import opened Bytes
  import opened ExchangeTypes
  import opened MatchingModel
  import opened BookModel
  import opened BookLaws

  // ---------------------------------------------------------------- submission

  /** What the other side has for an order: everything for a market order, whatever price it names;
      for a limit order what is priced at its limit or better. */
  function Available(b: Book, o: Order): nat {
    var resting := b.SideOf(o.side.Other());
    match o.kind
    case Market => Volume(resting)
    case Limit => Volume(PricedWithin(o.side, o.price, resting))
  }

  lemma ReachIsAvailable(b: Book, o: Order)
    requires Good(b)
    ensures Reach(o, b.SideOf(o.side.Other())) == Available(b, o)
  {
    if o.kind == Market {
      MarketReachesAll(o, b.SideOf(o.side.Other()));
    } else {
      LimitReachesWithin(o, b.SideOf(o.side.Other()), b.nextNode);
    }
  }

  /** A submission takes from the other side what it asks for, as far as that is available; and it is
      always accepted. */
  lemma SubmissionTakesWhatIsAvailable(b: Book, o: Order, symbol: Symbol, trade: nat)
    requires Good(b)
    ensures var v, taken := Submit(b, o, symbol, trade), Min(o.remaining, Available(b, o));
      && v.found && Traded(v.fills) == taken
      && Volume(v.book.SideOf(o.side.Other())) == Volume(b.SideOf(o.side.Other())) - taken
  {
    ReachIsAvailable(b, o);
    MatchLeavesTheRest(o, b.SideOf(o.side.Other()), symbol, trade);
    MatchConserves(o, b.SideOf(o.side.Other()), symbol, trade);
  }

  /** The order as it comes to rest. */
  function Remainder(b: Book, o: Order): Order
    requires o.remaining > Available(b, o)
  {
    Order(o.orderId, o.symbol, o.side, o.kind, o.price, o.quantity, o.remaining - Available(b, o), o.timestamp,
          o.clientId)
  }

  predicate ComesToRest(b: Book, o: Order) {
    o.kind == Limit && o.remaining > Available(b, o)
  }

  /** On its own side a submission changes nothing but that a limit order comes to rest there if it asks
      for more than is available: as the latest arrival, with what is left of it. */
  lemma SubmissionRestsIff(b: Book, o: Order, symbol: Symbol, trade: nat, n: Node)
    requires Good(b)
    ensures var b' := Submit(b, o, symbol, trade).book;
      && (n in b'.SideOf(o.side)
          <==> n in b.SideOf(o.side) || (ComesToRest(b, o) && n == Node(b.nextNode, Remainder(b, o))))
      && b'.nextNode == b.nextNode + if ComesToRest(b, o) then 1 else 0
  {
    ReachIsAvailable(b, o);
    var (b', m) := Walk(b, o, symbol, trade);
    MatchLeavesTheRest(o, b.SideOf(o.side.Other()), symbol, trade);
    MatchConserves(o, b.SideOf(o.side.Other()), symbol, trade);
    PlacedHolds(o.side, b'.SideOf(o.side), Node(b.nextNode, m.incoming));
  }

  /** What an order's owner hears at last: that it rests, if nothing of it was traded, or that a market
      order's rest is cancelled. */
  function LastWord(b: Book, o: Order): seq<Report> {
    if o.remaining <= Available(b, o) then []
    else
      var left := o.remaining - Available(b, o);
      match o.kind
      case Limit =>
        if left != o.quantity then []
        else [Report(o.orderId, o.symbol, o.side, New, o.price, o.quantity, left, 0, 0, "", o.clientId)]
      case Market =>
        [Report(o.orderId, o.symbol, o.side, Cancelled, o.price, o.quantity, left, 0, 0,
                "Market Order Expired / Unfilled Qty", o.clientId)]
  }

  /** The reports of a submission: two to each fill, and the last word. */
  lemma SubmissionTells(b: Book, o: Order, symbol: Symbol, trade: nat)
    requires Good(b)
    ensures var v := Submit(b, o, symbol, trade);
      && 2 * |v.fills| <= |v.reports|
      && ReportsMirror(v.reports[..2 * |v.fills|], v.fills, o, b.SideOf(o.side.Other()))
      && v.reports[2 * |v.fills|..] == LastWord(b, o)
  {
    var resting := b.SideOf(o.side.Other());
    assert AllLive(resting, o.side.Other());
    ReportsMirrorFills(o, resting, symbol, trade);
    LastWordIsLast(b, o, symbol, trade);
    FrontOf(Match(o, resting, symbol, trade).reports, LastWord(b, o));
  }

  lemma LastWordIsLast(b: Book, o: Order, symbol: Symbol, trade: nat)
    requires Good(b)
    ensures Submit(b, o, symbol, trade).reports
         == Match(o, b.SideOf(o.side.Other()), symbol, trade).reports + LastWord(b, o)
  {
    WalkLeaves(b, o, symbol, trade);
    var m := Match(o, b.SideOf(o.side.Other()), symbol, trade);
    assert m.reports + [] == m.reports;
  }

  /** The incoming order after the walk. */
  lemma WalkLeaves(b: Book, o: Order, symbol: Symbol, trade: nat)
    requires Good(b)
    ensures Match(o, b.SideOf(o.side.Other()), symbol, trade).incoming
         == o.(remaining := Max(0, o.remaining - Available(b, o)))
  {
    ReachIsAvailable(b, o);
    MatchLeavesTheRest(o, b.SideOf(o.side.Other()), symbol, trade);
    MatchConserves(o, b.SideOf(o.side.Other()), symbol, trade);
  }

  // ---------------------------------------------------------------- cancellation and modification

  /** Cancelling a known id takes the order it leads to out of the book and nothing else, and tells its
      owner; an unknown id changes nothing and tells nobody. */
  lemma CancellationIsExact(b: Book, orderId: nat, symbol: Symbol)
    requires Good(b)
    ensures var v := Step(b, CancelOp(orderId), symbol, 0);
      if orderId !in b.index then v == Outcome(b, [], [], false)
      else
        var n := Target(b, orderId);
        && n.Some? && n.value.order.orderId == orderId && v.found && v.fills == []
        && v.reports == [Report(orderId, symbol, n.value.order.side, Cancelled, n.value.order.price, 0, 0, 0, 0, "",
                                n.value.order.clientId)]
        && (forall side, x :: x in v.book.SideOf(side) <==> x in b.SideOf(side) && x != n.value)
        && v.book.index == b.index - {orderId} && v.book.nextNode == b.nextNode
  {
    if orderId in b.index {
      TargetIsResting(b, orderId);
      forall side, x
        ensures x in Removed(b, orderId).SideOf(side) <==> x in b.SideOf(side) && x != Target(b, orderId).value
      {
        RemovedHolds(b, orderId, side, x);
      }
    }
  }

  lemma RemovedHolds(b: Book, orderId: nat, side: Side, x: Node)
    requires Good(b) && orderId in b.index && EntrySound(b, orderId)
    ensures x in Removed(b, orderId).SideOf(side) <==> x in b.SideOf(side) && x != Target(b, orderId).value
  {
    var e := b.index[orderId];
    WithoutHolds(e.side, b.SideOf(e.side), e.node, b.nextNode);
    LookupIsMember(b.SideOf(e.side), e.node);
    if x in b.SideOf(side) && side == e.side {
      MemberIsLookedUp(side, b.SideOf(side), x, b.nextNode);
    }
  }

  /** The order a modification stands for. */
  function Replacement(o: Order, r: ModifyRequest): Order {
    Order(o.orderId, o.symbol, o.side, o.kind, r.price, r.quantity, r.quantity, r.timestamp, o.clientId)
  }

  /** Modifying a known id is cancelling it and submitting, under the old id, side, type and client, an
      order of the new price, quantity and time; an unknown id changes nothing and tells nobody. */
  lemma ModificationIsExact(b: Book, r: ModifyRequest, symbol: Symbol, trade: nat)
    requires Good(b)
    ensures var v := Step(b, ModifyOp(r), symbol, trade);
      if r.orderId !in b.index then v == Outcome(b, [], [], false)
      else
        var n, b' := Target(b, r.orderId), Step(b, CancelOp(r.orderId), symbol, 0).book;
        && n.Some? && n.value.order.orderId == r.orderId && Good(b')
        && v == Step(b', SubmitOp(Replacement(n.value.order, r)), symbol, trade)
  {
    if r.orderId in b.index {
      TargetIsResting(b, r.orderId);
      StepGood(b, CancelOp(r.orderId), symbol, 0);
    }
  }

  /** On the order's side, a modification changes nothing but that the old order goes and, if it asks for
      more than is available, the new one comes to rest as the latest arrival. */
  lemma ModifiedOrderRestsIff(b: Book, r: ModifyRequest, symbol: Symbol, trade: nat, x: Node)
    requires Good(b) && r.orderId in b.index
    ensures EntrySound(b, r.orderId)
    ensures var n, b' := Target(b, r.orderId).value, Step(b, ModifyOp(r), symbol, trade).book;
      var o := Replacement(n.order, r);
      x in b'.SideOf(n.order.side)
      <==> (x in b.SideOf(n.order.side) && x != n) || (ComesToRest(b, o) && x == Node(b.nextNode, Remainder(b, o)))
  {
    TargetIsResting(b, r.orderId);
    ModificationIsExact(b, r, symbol, trade);
    CancellationIsExact(b, r.orderId, symbol);
    var n, c := Target(b, r.orderId).value, Step(b, CancelOp(r.orderId), symbol, 0).book;
    StepGood(b, CancelOp(r.orderId), symbol, 0);
    assert c.SideOf(n.order.side.Other()) == b.SideOf(n.order.side.Other());
    SubmissionRestsIff(c, Replacement(n.order, r), symbol, trade, x);
  }
}
