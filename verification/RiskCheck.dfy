/** RiskChecker: what is let through to the books, and what that means for them. */
module RiskChecks {
  import opened Bytes
  import opened ExchangeTypes
  import opened MatchingModel
  import opened BookModel
  import opened BookLaws

  const MAX_PRICE: int := 99999999
  const MAX_QUANTITY: int := 10000000
  const MAX_ORDER_VALUE: int := 500000000

  datatype Refusal = InvalidSymbol | InvalidPrice | InvalidQuantity | DuplicateId | ValueTooHigh

  /** The limits on price, quantity and value. */
  predicate WithinLimits(price: nat, quantity: nat) {
    1 <= price <= MAX_PRICE && 1 <= quantity <= MAX_QUANTITY && price * quantity <= MAX_ORDER_VALUE
  }

  /** An order the exchange can accept, given the symbols it trades and the ids it has seen. */
  predicate Acceptable(allowed: set<Symbol>, seen: set<nat>, o: Order) {
    o.symbol in allowed && o.orderId !in seen && WithinLimits(o.price, o.quantity)
  }

  /** The limit that a refusal names is not met. */
  predicate Fails(r: Refusal, allowed: set<Symbol>, seen: set<nat>, o: Order) {
    match r
    case InvalidSymbol => o.symbol !in allowed
    case InvalidPrice => !(1 <= o.price <= MAX_PRICE)
    case InvalidQuantity => !(1 <= o.quantity <= MAX_QUANTITY)
    case DuplicateId => o.orderId in seen
    case ValueTooHigh => o.price * o.quantity > MAX_ORDER_VALUE
  }

  /** Of several limits that are not met, the first one is named. */
  function Rank(r: Refusal): nat {
    match r
    case InvalidSymbol => 0
    case InvalidPrice => 1
    case InvalidQuantity => 2
    case DuplicateId => 3
    case ValueTooHigh => 4
  }

  class RiskChecker {
    var allowed: set<Symbol>
    var seen: set<nat>

    constructor ()
      ensures allowed == {} && seen == {}
    {
      allowed, seen := {}, {};
    }

    method RegisterSymbol(symbol: Symbol)
      modifies this`allowed
      ensures allowed == old(allowed) + {symbol}
    {
      allowed := allowed + {symbol};
    }

    /** validate_order: lets exactly the acceptable orders through, remembers exactly those, and names
        the first limit that another one does not meet. */
    method ValidateOrder(o: Order) returns (refusal: Option<Refusal>)
      modifies this`seen
      ensures refusal.None? <==> Acceptable(allowed, old(seen), o)
      ensures refusal.None? <==>
        && o.symbol in allowed && o.orderId !in old(seen) && 1 <= o.price <= 99_999_999
        && 1 <= o.quantity <= 10_000_000 && o.price * o.quantity <= 500_000_000
      ensures seen == if refusal.None? then old(seen) + {o.orderId} else old(seen)
      ensures refusal.Some? ==> Fails(refusal.value, allowed, old(seen), o)
      ensures forall r | Fails(r, allowed, old(seen), o) :: refusal.Some? && Rank(refusal.value) <= Rank(r)
    {
      if o.symbol !in allowed {
        return Some(InvalidSymbol);
      }
      if o.price <= 0 || o.price > MAX_PRICE {
        return Some(InvalidPrice);
      }
      if o.quantity <= 0 || o.quantity > MAX_QUANTITY {
        return Some(InvalidQuantity);
      }
      if o.orderId in seen {
        return Some(DuplicateId);
      }
      ValueDoesNotWrap(o.price, o.quantity);
      var value := (o.price * o.quantity) % (SIZE_MAX + 1);
      if value > MAX_ORDER_VALUE {
        return Some(ValueTooHigh);
      }
      seen := seen + {o.orderId};
      refusal := None;
    }
  }

  /** Within the bounds checked before, the 64-bit product is the true one. */
  lemma ValueDoesNotWrap(price: nat, quantity: nat)
    requires price <= MAX_PRICE && quantity <= MAX_QUANTITY
    ensures (price * quantity) % (SIZE_MAX + 1) == price * quantity
  {
    ProductIsMonotone(price, MAX_PRICE, quantity);
    RemainderIsUnique(price * quantity, SIZE_MAX + 1, 0, price * quantity);
  }

  lemma ProductIsMonotone(a: nat, b: nat, c: nat)
    requires a <= b
    ensures a * c <= b * c
  {
  }

  // ---------------------------------------------------------------- whole runs

  /** An order put to the check, and the symbols registered at that time. */
  datatype Presented = Presented(allowed: set<Symbol>, order: Order)

  /** The ids accepted when orders are presented one after the other. */
  function AcceptedIds(seen: set<nat>, presented: seq<Presented>): seq<nat>
    decreases |presented|
  {
    if presented == [] then []
    else
      var o := presented[0].order;
      if Acceptable(presented[0].allowed, seen, o) then [o.orderId] + AcceptedIds(seen + {o.orderId}, presented[1..])
      else AcceptedIds(seen, presented[1..])
  }

  lemma {:induction false} AcceptedIdsAreNew(seen: set<nat>, presented: seq<Presented>)
    ensures var ids := AcceptedIds(seen, presented); NoRepeats(ids) && forall id | id in ids :: id !in seen
    decreases |presented|
  {
    if presented != [] {
      var o := presented[0].order;
      if Acceptable(presented[0].allowed, seen, o) {
        AcceptedIdsAreNew(seen + {o.orderId}, presented[1..]);
      } else {
        AcceptedIdsAreNew(seen, presented[1..]);
      }
    }
  }

  /** The limits that do not depend on what was seen before. */
  predicate Sound(p: Presented) {
    Acceptable(p.allowed, {}, p.order)
  }

  /** Over every run of the check, an id is accepted exactly if it was not seen before and some
      order presented under it meets the other limits. */
  lemma {:induction false} AcceptedIdsAreExact(seen: set<nat>, presented: seq<Presented>, id: nat)
    ensures id in AcceptedIds(seen, presented)
      <==> id !in seen && exists p :: p in presented && p.order.orderId == id && Sound(p)
    decreases |presented|
  {
    if presented != [] {
      var o, rest := presented[0].order, presented[1..];
      assert forall x :: x in presented <==> x == presented[0] || x in rest;
      if Acceptable(presented[0].allowed, seen, o) {
        AcceptedIdsAreExact(seen + {o.orderId}, rest, id);
      } else {
        AcceptedIdsAreExact(seen, rest, id);
      }
    }
  }

  lemma {:induction false} NoRepeatsCounts(ids: seq<nat>)
    requires NoRepeats(ids)
    ensures forall id :: multiset(ids)[id] <= 1
  {
    if ids != [] {
      var tail := ids[1..];
      assert forall i | 0 <= i < |tail| :: tail[i] == ids[i + 1];
      NoRepeatsCounts(tail);
      assert ids == [ids[0]] + tail && ids[0] !in tail;
    }
  }

  lemma CountsMeanNoRepeats(ids: seq<nat>)
    requires forall id :: multiset(ids)[id] <= 1
    ensures NoRepeats(ids)
  {
    forall i, j | 0 <= i < j < |ids|
      ensures ids[i] != ids[j]
    {
      var front, back := ids[..j], ids[j..];
      assert ids == front + back && front[i] in front && back[0] in back;
      assert multiset(ids)[ids[i]] == multiset(front)[ids[i]] + multiset(back)[ids[i]];
    }
  }

  /**
   * Whatever orders are presented, whatever symbols are registered meanwhile, and in whatever order
   * the workers get the accepted ones to a book: if no accepted id rests in the book to begin with,
   * every order resting in it can be queried, cancelled and modified by its id.
   */
  lemma GatedBooksStayReachable(presented: seq<Presented>, b: Book, ops: seq<Timed>, symbol: Symbol)
    requires Good(b) && Complete(b)
    requires multiset(SubmittedIds(ops)) <= multiset(AcceptedIds({}, presented))
    requires forall id | id in AcceptedIds({}, presented) :: id !in b.index
    ensures Complete(Run(b, ops, symbol))
  {
    var ids := AcceptedIds({}, presented);
    AcceptedIdsAreNew({}, presented);
    NoRepeatsCounts(ids);
    forall id
      ensures multiset(SubmittedIds(ops))[id] <= multiset(ids)[id] <= 1
    {
    }
    CountsMeanNoRepeats(SubmittedIds(ops));
    forall id | id in SubmittedIds(ops)
      ensures id !in b.index
    {
      assert id in multiset(SubmittedIds(ops)) && id in multiset(ids);
    }
    RestingOrdersStayReachable(b, ops, symbol);
  }

  lemma EmptyIsComplete()
    ensures Good(BookModel.EMPTY) && Complete(BookModel.EMPTY)
  {
  }

  /** A restart forgets the ids seen but not, after a replay, the orders.  An order accepted then under
      the id of a resting one takes that one's place in the index, exactly if it is a limit order that
      asks for more than it can reach and may not trade with the resting one. */
  lemma ForgottenIdsHideOrders(b: Book, o: Order, allowed: set<Symbol>, trade: nat)
    requires Good(b) && Complete(b) && o.orderId in b.index && Acceptable(allowed, {}, o)
    ensures AcceptedIds({}, [Presented(allowed, o)]) == [o.orderId]
    ensures !Complete(Submit(b, o, o.symbol, trade).book)
      <==> o.kind == Limit && o.remaining > Reach(o, b.SideOf(o.side.Other())) && !MayTrade(b, o, o.orderId)
  {
    assert [Presented(allowed, o)][1..] == [];
    SubmitCompleteIff(b, o, o.symbol, trade);
  }

  // ---------------------------------------------------------------- limits on what rests

  /** Everything in the book keeps the limits on price, quantity and value. */
  ghost predicate AllWithinLimits(b: Book) {
    forall side, n {:trigger n in b.SideOf(side)} | n in b.SideOf(side) :: WithinLimits(n.order.price, n.order.quantity)
  }

  lemma WalkKeepsLimits(b: Book, o: Order, symbol: Symbol, trade: nat)
    requires Good(b) && AllWithinLimits(b)
    ensures AllWithinLimits(Walk(b, o, symbol, trade).0)
  {
    var opp := o.side.Other();
    var (b', m) := Walk(b, o, symbol, trade);
    assert AllLive(b.SideOf(opp), opp);
    MatchTakesPrefix(o, b.SideOf(opp), symbol, trade);
    forall side, n | n in b'.SideOf(side)
      ensures WithinLimits(n.order.price, n.order.quantity)
    {
      if side == opp {
        var x := WasResting(m, b.SideOf(opp), n);
        assert x in b.SideOf(opp);
      } else {
        assert n in b.SideOf(side);
      }
    }
  }

  lemma RestKeepsLimitsIff(b: Book, o: Order)
    requires AllWithinLimits(b)
    ensures AllWithinLimits(Rest(b, o)) <==> WithinLimits(o.price, o.quantity)
  {
    var n, b' := Node(b.nextNode, o), Rest(b, o);
    PlacedHolds(o.side, b.SideOf(o.side), n);
    assert n in b'.SideOf(o.side);
    if WithinLimits(o.price, o.quantity) {
      forall side, x | x in b'.SideOf(side)
        ensures WithinLimits(x.order.price, x.order.quantity)
      {
        assert x == n || x in b.SideOf(side);
      }
    }
  }

  /** A submission that cannot bring anything past the limits to rest: it keeps them, or is a market
      order, or asks for no more than it can have at once. */
  predicate Harmless(b: Book, o: Order) {
    WithinLimits(o.price, o.quantity) || o.kind == Market || o.remaining <= Reach(o, b.SideOf(o.side.Other()))
  }

  lemma SubmitKeepsLimitsIff(b: Book, o: Order, symbol: Symbol, trade: nat)
    requires Good(b) && AllWithinLimits(b)
    ensures AllWithinLimits(Submit(b, o, symbol, trade).book) <==> Harmless(b, o)
  {
    var (b', m) := Walk(b, o, symbol, trade);
    WalkKeepsLimits(b, o, symbol, trade);
    MatchLeavesTheRest(o, b.SideOf(o.side.Other()), symbol, trade);
    MatchConserves(o, b.SideOf(o.side.Other()), symbol, trade);
    RestKeepsLimitsIff(b', m.incoming);
  }

  lemma RemovedKeepsLimits(b: Book, orderId: nat)
    requires Good(b) && AllWithinLimits(b) && orderId in b.index
    ensures AllWithinLimits(Removed(b, orderId))
  {
    var e, b' := b.index[orderId], Removed(b, orderId);
    WithoutHolds(e.side, b.SideOf(e.side), e.node, b.nextNode);
    forall side, x | x in b'.SideOf(side)
      ensures WithinLimits(x.order.price, x.order.quantity)
    {
      assert x in b.SideOf(side);
    }
  }

  /** The same for any operation: a modification is as harmless as the submission it amounts to. */
  ghost predicate HarmlessStep(b: Book, op: Op)
    requires Good(b)
  {
    match op
    case SubmitOp(o) => Harmless(b, o)
    case CancelOp(_) => true
    case ModifyOp(r) =>
      r.orderId in b.index ==>
        EntrySound(b, r.orderId) && Harmless(Removed(b, r.orderId), Changed(Target(b, r.orderId).value.order, r))
  }

  /** A step leaves a book within the limits exactly if it is harmless. */
  lemma StepKeepsLimitsIff(b: Book, op: Op, symbol: Symbol, trade: nat)
    requires Good(b) && AllWithinLimits(b)
    ensures AllWithinLimits(Step(b, op, symbol, trade).book) <==> HarmlessStep(b, op)
  {
    match op
    case SubmitOp(o) => SubmitKeepsLimitsIff(b, o, symbol, trade);
    case CancelOp(id) => if id in b.index { RemovedKeepsLimits(b, id); }
    case ModifyOp(r) =>
      if r.orderId in b.index {
        TargetIsResting(b, r.orderId);
        RemovedGood(b, r.orderId);
        RemovedKeepsLimits(b, r.orderId);
        SubmitKeepsLimitsIff(Removed(b, r.orderId), Changed(Target(b, r.orderId).value.order, r), symbol, trade);
      }
  }

  /** Everything in the book keeps the limits at every moment of the run. */
  ghost predicate AlwaysWithinLimits(b: Book, ops: seq<Timed>, symbol: Symbol)
    requires Good(b)
    decreases |ops|
  {
    AllWithinLimits(b) &&
    (ops != [] ==>
       Good(Step(b, ops[0].op, symbol, ops[0].trade).book)
       && AlwaysWithinLimits(Step(b, ops[0].op, symbol, ops[0].trade).book, ops[1..], symbol))
  }

  /** Every modification in the run is harmless when its turn comes. */
  ghost predicate HarmlessModifications(b: Book, ops: seq<Timed>, symbol: Symbol)
    requires Good(b)
    decreases |ops|
  {
    ops != [] ==>
      && (ops[0].op.ModifyOp? ==> HarmlessStep(b, ops[0].op))
      && Good(Step(b, ops[0].op, symbol, ops[0].trade).book)
      && HarmlessModifications(Step(b, ops[0].op, symbol, ops[0].trade).book, ops[1..], symbol)
  }

  /** What the risk check let through: every order submitted was acceptable to it at some time. */
  ghost predicate Gated(ops: seq<Timed>) {
    forall i | 0 <= i < |ops| ::
      ops[i].op.SubmitOp? ==> exists allowed, seen :: Acceptable(allowed, seen, ops[i].op.order)
  }

  /**
   * Behind the risk check, everything that rests keeps the limits throughout a run if and only if
   * every modification in it is harmless: the check itself is put to submissions only.
   */
  lemma {:induction false} GatedRunKeepsLimitsIff(b: Book, ops: seq<Timed>, symbol: Symbol)
    requires Good(b) && AllWithinLimits(b) && Gated(ops)
    ensures AlwaysWithinLimits(b, ops, symbol) <==> HarmlessModifications(b, ops, symbol)
    decreases |ops|
  {
    if ops != [] {
      var op, trade := ops[0].op, ops[0].trade;
      StepGood(b, op, symbol, trade);
      StepKeepsLimitsIff(b, op, symbol, trade);
      if HarmlessStep(b, op) {
        assert Gated(ops[1..]);
        GatedRunKeepsLimitsIff(Step(b, op, symbol, trade).book, ops[1..], symbol);
      }
    }
  }

  /** An order for 10 at 100 passes the check and rests; a modification brings it to a price past
      the limit, where it rests as well; a modification to quantity zero removes it and tells nobody. */
  lemma ModificationPassesLimits() returns (b: Book)
    ensures var o := Order(1, [65], Buy, Limit, 100, 10, 10, 1, 7);
      Acceptable({[65]}, {}, o) && b == Submit(BookModel.EMPTY, o, [65], 1).book && Good(b) && AllWithinLimits(b)
    ensures !AllWithinLimits(Step(b, ModifyOp(ModifyRequest(1, [65], MAX_PRICE + 1, 10, 2)), [65], 1).book)
    ensures Step(b, ModifyOp(ModifyRequest(1, [65], 100, 0, 2)), [65], 1)
         == Outcome(BookModel.EMPTY.(nextNode := 1), [], [], true)
  {
    var o, r := Order(1, [65], Buy, Limit, 100, 10, 10, 1, 7), ModifyRequest(1, [65], MAX_PRICE + 1, 10, 2);
    b := Submit(BookModel.EMPTY, o, [65], 1).book;
    EmptyIsComplete();
    SubmitGood(BookModel.EMPTY, o, [65], 1);
    SubmitKeepsLimitsIff(BookModel.EMPTY, o, [65], 1);
    StepKeepsLimitsIff(b, ModifyOp(r), [65], 1);
    assert EntrySound(b, 1);
    SilentlyRemoved(b, o);
  }

  lemma SilentlyRemoved(b: Book, o: Order)
    requires Good(b) && b == Book([Node(0, o)], [], map[1 := Entry(Buy, o.price, 0)], 1) && o.orderId == 1
    ensures Step(b, ModifyOp(ModifyRequest(1, o.symbol, o.price, 0, 2)), o.symbol, 1)
         == Outcome(BookModel.EMPTY.(nextNode := 1), [], [], true)
  {
    assert EntrySound(b, 1);
    var b' := Removed(b, 1);
    assert b' == BookModel.EMPTY.(nextNode := 1);
    assert b'.index - Ids([]) == b'.index;
  }
}
