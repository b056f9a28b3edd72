/**
 * All the books of an exchange under one trade id counter.  Workers interleave the requests for
 * different symbols in any way; a book sees its own requests only, and neither other books' trades
 * nor anybody's client id makes a difference to it.
 */
module ExchangeModel {
  import opened Bytes
  import opened ExchangeTypes
  import opened MatchingModel
  import opened BookModel
  import opened BookLaws

  // ---------------------------------------------------------------- the exchange

  datatype Request = Request(symbol: Symbol, op: Op)

  /** The registry's books and the counter of the trade id generator. */
  datatype Exchange = Exchange(books: map<Symbol, Book>, trade: nat)

  const OPENING: Exchange := Exchange(map[], 1)

  ghost predicate AllGood(x: Exchange) {
    forall s | s in x.books :: Good(x.books[s])
  }

  /** get_order_book: books come into being when first asked for. */
  function BookOf(x: Exchange, s: Symbol): Book {
    if s in x.books then x.books[s] else BookModel.EMPTY
  }

  lemma BookOfGood(x: Exchange, s: Symbol)
    requires AllGood(x)
    ensures Good(BookOf(x, s))
  {
  }

  function Perform(x: Exchange, r: Request): (x': Exchange)
    requires AllGood(x)
    ensures AllGood(x')
  {
    BookOfGood(x, r.symbol);
    StepGood(BookOf(x, r.symbol), r.op, r.symbol, x.trade);
    var o := Step(BookOf(x, r.symbol), r.op, r.symbol, x.trade);
    Exchange(x.books[r.symbol := o.book], x.trade + |o.fills|)
  }

  function PerformAll(x: Exchange, rs: seq<Request>): (x': Exchange)
    requires AllGood(x)
    ensures AllGood(x')
    decreases |rs|
  {
    if rs == [] then x else PerformAll(Perform(x, rs[0]), rs[1..])
  }

  /** The fills of a run, in the order they are made. */
  function FillsOf(x: Exchange, rs: seq<Request>): seq<Fill>
    requires AllGood(x)
    decreases |rs|
  {
    if rs == [] then []
    else
      BookOfGood(x, rs[0].symbol);
      Step(BookOf(x, rs[0].symbol), rs[0].op, rs[0].symbol, x.trade).fills + FillsOf(Perform(x, rs[0]), rs[1..])
  }

  // ---------------------------------------------------------------- alike but for the clients

  predicate AlikeOrders(a: Order, b: Order) {
    a.(clientId := 0) == b.(clientId := 0)
  }

  ghost predicate AlikeNodes(a: seq<Node>, b: seq<Node>) {
    |a| == |b| && forall i | 0 <= i < |a| :: a[i].id == b[i].id && AlikeOrders(a[i].order, b[i].order)
  }

  ghost predicate AlikeBooks(a: Book, b: Book) {
    AlikeNodes(a.bids, b.bids) && AlikeNodes(a.asks, b.asks) && a.index == b.index && a.nextNode == b.nextNode
  }

  predicate AlikeOps(a: Op, b: Op) {
    match (a, b)
    case (SubmitOp(o), SubmitOp(p)) => AlikeOrders(o, p)
    case (_, _) => a == b
  }

  lemma TradesAlike(o: Order, p: Order, a: Order, b: Order, symbol: Symbol, t: nat, u: nat)
    requires AlikeOrders(o, p) && AlikeOrders(a, b)
    ensures AlikeFills(MatchResting(o, a, symbol, t).fills, MatchResting(p, b, symbol, u).fills, t, u)
  {
  }

  /** Fills that are the same but for their numbers, which count from t here and from u there. */
  ghost predicate AlikeFills(f: seq<Fill>, g: seq<Fill>, t: nat, u: nat) {
    |f| == |g| && forall i | 0 <= i < |f| :: f[i].tradeId == t + i && g[i] == f[i].(tradeId := u + i)
  }

  lemma AlikeFillsJoin(f: seq<Fill>, g: seq<Fill>, f': seq<Fill>, g': seq<Fill>, t: nat, u: nat)
    requires AlikeFills(f, g, t, u) && AlikeFills(f', g', t + |f|, u + |g|)
    ensures AlikeFills(f + f', g + g', t, u)
  {
    forall i | 0 <= i < |f| + |f'|
      ensures (f + f')[i].tradeId == t + i && (g + g')[i] == (f + f')[i].(tradeId := u + i)
    {
      if i >= |f| {
        assert f'[i - |f|].tradeId == t + i;
      }
    }
  }

  /** Two walks come to the same but for the clients and the numbers of the fills. */
  ghost predicate AlikeMatched(m: Matched, n: Matched, t: nat, u: nat) {
    && AlikeOrders(m.incoming, n.incoming) && AlikeNodes(m.resting, n.resting) && m.gone == n.gone
    && AlikeFills(m.fills, n.fills, t, u)
  }

  lemma PrecededAlike(x: Trade, y: Trade, gone: seq<nat>, m: Matched, n: Matched, t: nat, u: nat)
    requires AlikeFills(x.fills, y.fills, t, u) && AlikeMatched(m, n, t + |x.fills|, u + |y.fills|)
    ensures AlikeMatched(Preceded(x, gone, m), Preceded(y, gone, n), t, u)
  {
    AlikeFillsJoin(x.fills, y.fills, m.fills, n.fills, t, u);
  }

  /** Two walks alike take their first step alike. */
  lemma FirstStepAlike(o: Order, p: Order, a: seq<Node>, b: seq<Node>, symbol: Symbol, t: nat, u: nat)
    returns (x: Trade, y: Trade, q: nat)
    requires AlikeOrders(o, p) && AlikeNodes(a, b) && GoesOn(o, a)
    ensures q == Min(o.remaining, a[0].order.remaining) && q <= b[0].order.remaining
    ensures AlikeFills(x.fills, y.fills, t, u)
    ensures q == a[0].order.remaining ==>
      && Match(o, a, symbol, t) == Preceded(x, [a[0].order.orderId], Match(After(o, q), a[1..], symbol, t + |x.fills|))
      && Match(p, b, symbol, u) == Preceded(y, [a[0].order.orderId], Match(After(p, q), b[1..], symbol, u + |y.fills|))
    ensures q < a[0].order.remaining ==>
      && Match(o, a, symbol, t) == Matched(After(o, q), [Reduced(a[0], q)] + a[1..], x.fills, x.reports, [])
      && Match(p, b, symbol, u) == Matched(After(p, q), [Reduced(b[0], q)] + b[1..], y.fills, y.reports, [])
  {
    assert AlikeOrders(a[0].order, b[0].order);
    x, q := MatchUnfolds(o, a, symbol, t);
    var k;
    y, k := MatchUnfolds(p, b, symbol, u);
    TradesAlike(o, p, a[0].order, b[0].order, symbol, t, u);
  }

  /** Matching looks neither at clients nor, but for numbering the fills, at the trade counter. */
  lemma {:induction false} MatchAlike(o: Order, p: Order, a: seq<Node>, b: seq<Node>, symbol: Symbol, t: nat, u: nat)
    returns (m: Matched, n: Matched)
    requires AlikeOrders(o, p) && AlikeNodes(a, b)
    ensures m == Match(o, a, symbol, t) && n == Match(p, b, symbol, u)
    ensures AlikeMatched(m, n, t, u)
    decreases |a|
  {
    m, n := Match(o, a, symbol, t), Match(p, b, symbol, u);
    if GoesOn(o, a) {
      var x, y, q := FirstStepAlike(o, p, a, b, symbol, t, u);
      if q == a[0].order.remaining {
        var m', n' := MatchAlike(After(o, q), After(p, q), a[1..], b[1..], symbol, t + |x.fills|, u + |y.fills|);
        PrecededAlike(x, y, [a[0].order.orderId], m', n', t, u);
      } else {
        ReducedAlike(o, p, a, b, x, y, q, t, u);
      }
    }
  }

  lemma ReducedAlike(o: Order, p: Order, a: seq<Node>, b: seq<Node>, x: Trade, y: Trade, q: nat, t: nat, u: nat)
    requires AlikeOrders(o, p) && AlikeNodes(a, b) && a != [] && q <= a[0].order.remaining && q <= o.remaining
    requires AlikeFills(x.fills, y.fills, t, u)
    ensures AlikeMatched(Matched(After(o, q), [Reduced(a[0], q)] + a[1..], x.fills, x.reports, []),
                         Matched(After(p, q), [Reduced(b[0], q)] + b[1..], y.fills, y.reports, []), t, u)
  {
  }

  lemma {:induction false} PlacedAlike(side: Side, a: seq<Node>, b: seq<Node>, n: Node, m: Node)
    requires AlikeNodes(a, b) && n.id == m.id && AlikeOrders(n.order, m.order)
    ensures AlikeNodes(Placed(side, a, n), Placed(side, b, m))
  {
    if a == [] || Better(side, n.order.price, a[0].order.price) {
    } else {
      PlacedAlike(side, a[1..], b[1..], n, m);
    }
  }

  lemma {:induction false} WithoutAlike(a: seq<Node>, b: seq<Node>, id: nat)
    requires AlikeNodes(a, b)
    ensures AlikeNodes(Without(a, id), Without(b, id))
    ensures var x, y := Lookup(a, id), Lookup(b, id);
      (x.Some? <==> y.Some?) && (x.Some? ==> AlikeOrders(x.value.order, y.value.order))
  {
    if a != [] && a[0].id != id {
      WithoutAlike(a[1..], b[1..], id);
    }
  }

  lemma RestAlike(a: Book, b: Book, o: Order, p: Order)
    requires AlikeBooks(a, b) && AlikeOrders(o, p)
    ensures AlikeBooks(Rest(a, o), Rest(b, p))
  {
    PlacedAlike(o.side, a.SideOf(o.side), b.SideOf(o.side), Node(a.nextNode, o), Node(b.nextNode, p));
  }

  lemma WalkAlike(a: Book, b: Book, o: Order, p: Order, symbol: Symbol, t: nat, u: nat)
    requires AlikeBooks(a, b) && AlikeOrders(o, p)
    ensures var (a', m) := Walk(a, o, symbol, t); var (b', n) := Walk(b, p, symbol, u);
      && AlikeBooks(a', b') && AlikeOrders(m.incoming, n.incoming)
      && AlikeFills(m.fills, n.fills, t, u)
  {
    var _, _ := MatchAlike(o, p, a.SideOf(o.side.Other()), b.SideOf(o.side.Other()), symbol, t, u);
  }

  lemma SubmitAlike(a: Book, b: Book, o: Order, p: Order, symbol: Symbol, t: nat, u: nat)
    requires AlikeBooks(a, b) && AlikeOrders(o, p)
    ensures var r, v := Submit(a, o, symbol, t), Submit(b, p, symbol, u);
      AlikeBooks(r.book, v.book) && AlikeFills(r.fills, v.fills, t, u)
  {
    WalkAlike(a, b, o, p, symbol, t, u);
    var (a', m) := Walk(a, o, symbol, t);
    var (b', n) := Walk(b, p, symbol, u);
    RestAlike(a', b', m.incoming, n.incoming);
  }

  lemma RemovedAlike(a: Book, b: Book, orderId: nat)
    requires AlikeBooks(a, b) && orderId in a.index && EntrySound(a, orderId) && EntrySound(b, orderId)
    ensures AlikeBooks(Removed(a, orderId), Removed(b, orderId))
    ensures AlikeOrders(Target(a, orderId).value.order, Target(b, orderId).value.order)
  {
    var e := a.index[orderId];
    WithoutAlike(a.SideOf(e.side), b.SideOf(e.side), e.node);
  }

  /** Books alike but for the clients stay so under requests alike but for the clients, and make the
      same fills but for their numbers, whatever trade ids the one and the other start from. */
  lemma StepAlike(a: Book, b: Book, op: Op, op': Op, symbol: Symbol, t: nat, u: nat)
    requires Good(a) && Good(b) && AlikeBooks(a, b) && AlikeOps(op, op')
    ensures var r, v := Step(a, op, symbol, t), Step(b, op', symbol, u);
      AlikeBooks(r.book, v.book) && AlikeFills(r.fills, v.fills, t, u)
  {
    match op
    case SubmitOp(o) => SubmitAlike(a, b, o, op'.order, symbol, t, u);
    case CancelOp(id) =>
      if id in a.index {
        assert EntrySound(a, id) && EntrySound(b, id);
        RemovedAlike(a, b, id);
      }
    case ModifyOp(r) =>
      if r.orderId in a.index {
        assert EntrySound(a, r.orderId) && EntrySound(b, r.orderId);
        RemovedAlike(a, b, r.orderId);
        SubmitAlike(Removed(a, r.orderId), Removed(b, r.orderId), Changed(Target(a, r.orderId).value.order, r),
                    Changed(Target(b, r.orderId).value.order, r), symbol, t, u);
      }
  }

  // ---------------------------------------------------------------- trade ids never reach a book

  lemma PrecededNumbersOnlyFills(x: Trade, y: Trade, gone: seq<nat>, m: Matched, n: Matched)
    requires x == y.(fills := x.fills) && m == n.(fills := m.fills)
    ensures Preceded(x, gone, m) == Preceded(y, gone, n).(fills := x.fills + m.fills)
  {
  }

  /** Matching from another trade id makes a difference to nothing but the fills. */
  lemma {:induction false} MatchNumbersOnlyFills(o: Order, a: seq<Node>, symbol: Symbol, t: nat, u: nat)
    returns (m: Matched, n: Matched)
    ensures m == Match(o, a, symbol, t) && n == Match(o, a, symbol, u) && m == n.(fills := m.fills)
    decreases |a|
  {
    m, n := Match(o, a, symbol, t), Match(o, a, symbol, u);
    if GoesOn(o, a) {
      var x, q := MatchUnfolds(o, a, symbol, t);
      var y, _ := MatchUnfolds(o, a, symbol, u);
      if q == a[0].order.remaining {
        var m', n' := MatchNumbersOnlyFills(After(o, q), a[1..], symbol, t + |x.fills|, u + |y.fills|);
        PrecededNumbersOnlyFills(x, y, [a[0].order.orderId], m', n');
      }
    }
  }

  lemma SubmitNumbersOnlyFills(b: Book, o: Order, symbol: Symbol, t: nat, u: nat)
    ensures var r := Submit(b, o, symbol, t); r == Submit(b, o, symbol, u).(fills := r.fills)
  {
    var _, _ := MatchNumbersOnlyFills(o, b.SideOf(o.side.Other()), symbol, t, u);
  }

  /** Nor does a request served from another trade id, clients and reports included. */
  lemma StepNumbersOnlyFills(b: Book, op: Op, symbol: Symbol, t: nat, u: nat)
    requires Good(b)
    ensures var r := Step(b, op, symbol, t); r == Step(b, op, symbol, u).(fills := r.fills)
  {
    match op
    case SubmitOp(o) => SubmitNumbersOnlyFills(b, o, symbol, t, u);
    case CancelOp(_) =>
    case ModifyOp(r) =>
      if r.orderId in b.index {
        TargetIsResting(b, r.orderId);
        SubmitNumbersOnlyFills(Removed(b, r.orderId), Changed(Target(b, r.orderId).value.order, r), symbol, t, u);
      }
  }

  // ---------------------------------------------------------------- one symbol at a time

  function OpsFor(rs: seq<Request>, s: Symbol): seq<Op> {
    if rs == [] then []
    else (if rs[0].symbol == s then [rs[0].op] else []) + OpsFor(rs[1..], s)
  }

  /** One book executing the operations meant for it. */
  ghost function BookAfter(b: Book, ops: seq<Op>, s: Symbol): (b': Book)
    requires Good(b)
    ensures Good(b')
    decreases |ops|
  {
    if ops == [] then b
    else
      StepGood(b, ops[0], s, 0);
      BookAfter(Step(b, ops[0], s, 0).book, ops[1..], s)
  }

  ghost predicate AlikeRuns(a: seq<Op>, b: seq<Op>) {
    |a| == |b| && forall i | 0 <= i < |a| :: AlikeOps(a[i], b[i])
  }

  lemma {:induction false} BooksAfterAlike(a: Book, b: Book, ops: seq<Op>, ops': seq<Op>, s: Symbol)
    requires Good(a) && Good(b) && AlikeBooks(a, b) && AlikeRuns(ops, ops')
    ensures AlikeBooks(BookAfter(a, ops, s), BookAfter(b, ops', s))
    decreases |ops|
  {
    if ops != [] {
      StepGood(a, ops[0], s, 0);
      StepGood(b, ops'[0], s, 0);
      StepAlike(a, b, ops[0], ops'[0], s, 0, 0);
      BooksAfterAlike(Step(a, ops[0], s, 0).book, Step(b, ops'[0], s, 0).book, ops[1..], ops'[1..], s);
    }
  }

  lemma {:induction false} AlikeWithItself(ops: seq<Op>, b: Book)
    ensures AlikeRuns(ops, ops) && AlikeBooks(b, b)
  {
    forall i | 0 <= i < |ops|
      ensures AlikeOps(ops[i], ops[i])
    {
    }
  }

  lemma PerformElsewhere(x: Exchange, r: Request, s: Symbol)
    requires AllGood(x)
    ensures r.symbol != s ==> BookOf(Perform(x, r), s) == BookOf(x, s)
    ensures r.symbol == s ==>
      Good(BookOf(x, s)) && BookOf(Perform(x, r), s) == Step(BookOf(x, s), r.op, s, x.trade).book
  {
    BookOfGood(x, s);
  }

  // ---------------------------------------------------------------- trades without their numbers

  function Unnumbered(fills: seq<Fill>): (r: seq<Fill>)
    ensures |r| == |fills|
  {
    seq(|fills|, i requires 0 <= i < |fills| => fills[i].(tradeId := 0))
  }

  function Numbered(fills: seq<Fill>, trade: nat): (r: seq<Fill>)
    ensures |r| == |fills|
  {
    seq(|fills|, i requires 0 <= i < |fills| => fills[i].(tradeId := trade + i))
  }

  /** The fills of one request, without their numbers. */
  datatype Block = Block(symbol: Symbol, fills: seq<Fill>)

  /** The block of a request that trades, and none for another. */
  function BlockOf(b: Book, op: Op, s: Symbol): seq<Block>
    requires Good(b)
  {
    var fills := Step(b, op, s, 0).fills;
    if fills == [] then [] else [Block(s, Unnumbered(fills))]
  }

  /** The blocks of a run, in the order they are made. */
  function Trades(x: Exchange, rs: seq<Request>): seq<Block>
    requires AllGood(x)
    decreases |rs|
  {
    if rs == [] then []
    else
      BookOfGood(x, rs[0].symbol);
      BlockOf(BookOf(x, rs[0].symbol), rs[0].op, rs[0].symbol) + Trades(Perform(x, rs[0]), rs[1..])
  }

  /** The blocks of one book executing the operations meant for it. */
  ghost function TradesAfter(b: Book, ops: seq<Op>, s: Symbol): seq<Block>
    requires Good(b)
    decreases |ops|
  {
    if ops == [] then []
    else
      StepGood(b, ops[0], s, 0);
      BlockOf(b, ops[0], s) + TradesAfter(Step(b, ops[0], s, 0).book, ops[1..], s)
  }

  function BlocksFor(blocks: seq<Block>, s: Symbol): seq<Block> {
    if blocks == [] then []
    else (if blocks[0].symbol == s then [blocks[0]] else []) + BlocksFor(blocks[1..], s)
  }

  lemma FirstBlocksFor(b: Book, op: Op, of: Symbol, blocks: seq<Block>, s: Symbol)
    requires Good(b)
    ensures BlocksFor(BlockOf(b, op, of) + blocks, s)
         == (if of == s then BlockOf(b, op, of) else []) + BlocksFor(blocks, s)
  {
    var first := BlockOf(b, op, of);
    if first == [] {
      assert first + blocks == blocks;
    } else {
      assert (first + blocks)[1..] == blocks;
    }
  }

  lemma FirstOpDone(b: Book, op: Op, ops: seq<Op>, s: Symbol, trade: nat)
    requires Good(b)
    ensures Good(Step(b, op, s, trade).book)
    ensures BookAfter(b, [op] + ops, s) == BookAfter(Step(b, op, s, trade).book, ops, s)
    ensures TradesAfter(b, [op] + ops, s) == BlockOf(b, op, s) + TradesAfter(Step(b, op, s, trade).book, ops, s)
  {
    StepGood(b, op, s, trade);
    StepNumbersOnlyFills(b, op, s, trade, 0);
    assert ([op] + ops)[1..] == ops;
  }

  lemma FirstOpFor(r: Request, rs: seq<Request>, s: Symbol)
    ensures OpsFor([r] + rs, s) == (if r.symbol == s then [r.op] else []) + OpsFor(rs, s)
  {
    assert ([r] + rs)[1..] == rs;
  }

  /** One request of a run, as one symbol sees it: what it trades for the symbol, and the rest. */
  lemma OneRequest(x: Exchange, r: Request, rs: seq<Request>, s: Symbol) returns (x': Exchange, first: seq<Block>)
    requires AllGood(x)
    ensures AllGood(x') && Good(BookOf(x, s)) && Good(BookOf(x', s))
    ensures PerformAll(x, [r] + rs) == PerformAll(x', rs)
    ensures BookAfter(BookOf(x, s), OpsFor([r] + rs, s), s) == BookAfter(BookOf(x', s), OpsFor(rs, s), s)
    ensures BlocksFor(Trades(x, [r] + rs), s) == first + BlocksFor(Trades(x', rs), s)
    ensures TradesAfter(BookOf(x, s), OpsFor([r] + rs, s), s) == first + TradesAfter(BookOf(x', s), OpsFor(rs, s), s)
  {
    x' := Perform(x, r);
    BookOfGood(x, s);
    BookOfGood(x', s);
    BookOfGood(x, r.symbol);
    assert ([r] + rs)[1..] == rs;
    PerformElsewhere(x, r, s);
    FirstOpFor(r, rs, s);
    FirstBlocksFor(BookOf(x, r.symbol), r.op, r.symbol, Trades(x', rs), s);
    if r.symbol == s {
      first := BlockOf(BookOf(x, s), r.op, s);
      FirstOpDone(BookOf(x, s), r.op, OpsFor(rs, s), s, x.trade);
    } else {
      first := [];
      assert [] + OpsFor(rs, s) == OpsFor(rs, s);
    }
  }

  /** What happens to one symbol does not depend on how the run interleaves it with others: its book,
      clients included, and its trades are those of executing its own requests alone. */
  lemma {:induction false} SymbolsAreIndependent(x: Exchange, rs: seq<Request>, s: Symbol)
    requires AllGood(x)
    ensures Good(BookOf(x, s))
    ensures BookOf(PerformAll(x, rs), s) == BookAfter(BookOf(x, s), OpsFor(rs, s), s)
    ensures BlocksFor(Trades(x, rs), s) == TradesAfter(BookOf(x, s), OpsFor(rs, s), s)
    decreases |rs|
  {
    if rs == [] {
      BookOfGood(x, s);
    } else {
      assert rs == [rs[0]] + rs[1..];
      var x', first := OneRequest(x, rs[0], rs[1..], s);
      SymbolsAreIndependent(x', rs[1..], s);
    }
  }

  lemma {:induction false} TradesAfterAlike(a: Book, b: Book, ops: seq<Op>, ops': seq<Op>, s: Symbol)
    requires Good(a) && Good(b) && AlikeBooks(a, b) && AlikeRuns(ops, ops')
    ensures TradesAfter(a, ops, s) == TradesAfter(b, ops', s)
    decreases |ops|
  {
    if ops != [] {
      StepGood(a, ops[0], s, 0);
      StepGood(b, ops'[0], s, 0);
      StepAlike(a, b, ops[0], ops'[0], s, 0, 0);
      assert Step(a, ops[0], s, 0).fills == Step(b, ops'[0], s, 0).fills;
      TradesAfterAlike(Step(a, ops[0], s, 0).book, Step(b, ops'[0], s, 0).book, ops[1..], ops'[1..], s);
    }
  }

  // ---------------------------------------------------------------- fills and their numbers

  ghost predicate AlikeExchanges(x: Exchange, y: Exchange) {
    x.trade == y.trade && forall s :: AlikeBooks(BookOf(x, s), BookOf(y, s))
  }

  ghost predicate AlikeRequests(a: seq<Request>, b: seq<Request>) {
    |a| == |b| && forall i | 0 <= i < |a| :: a[i].symbol == b[i].symbol && AlikeOps(a[i].op, b[i].op)
  }

  lemma PerformAlike(x: Exchange, y: Exchange, r: Request, q: Request)
    requires AllGood(x) && AllGood(y) && AlikeExchanges(x, y)
    requires r.symbol == q.symbol && AlikeOps(r.op, q.op)
    ensures Good(BookOf(x, r.symbol)) && Good(BookOf(y, q.symbol))
    ensures Step(BookOf(x, r.symbol), r.op, r.symbol, x.trade).fills
         == Step(BookOf(y, q.symbol), q.op, q.symbol, y.trade).fills
    ensures AlikeExchanges(Perform(x, r), Perform(y, q))
  {
    BookOfGood(x, r.symbol);
    BookOfGood(y, q.symbol);
    StepAlike(BookOf(x, r.symbol), BookOf(y, q.symbol), r.op, q.op, r.symbol, x.trade, y.trade);
    SameNumbersSameFills(Step(BookOf(x, r.symbol), r.op, r.symbol, x.trade).fills,
                         Step(BookOf(y, q.symbol), q.op, q.symbol, y.trade).fills, x.trade);
    forall s
      ensures AlikeBooks(BookOf(Perform(x, r), s), BookOf(Perform(y, q), s))
    {
      PerformElsewhere(x, r, s);
      PerformElsewhere(y, q, s);
    }
  }

  lemma SameNumbersSameFills(f: seq<Fill>, g: seq<Fill>, t: nat)
    requires AlikeFills(f, g, t, t)
    ensures f == g
  {
    assert forall i | 0 <= i < |f| :: g[i] == f[i].(tradeId := t + i);
  }

  /** A run repeated in the same order from the same count makes the same fills under the same
      trade ids, whoever the clients are. */
  lemma {:induction false} FillsRepeat(x: Exchange, y: Exchange, rs: seq<Request>, qs: seq<Request>)
    requires AllGood(x) && AllGood(y) && AlikeExchanges(x, y) && AlikeRequests(rs, qs)
    ensures FillsOf(x, rs) == FillsOf(y, qs)
    decreases |rs|
  {
    if rs != [] {
      PerformAlike(x, y, rs[0], qs[0]);
      FillsRepeat(Perform(x, rs[0]), Perform(y, qs[0]), rs[1..], qs[1..]);
    }
  }

  lemma FillsAreNumbered(b: Book, op: Op, s: Symbol, trade: nat)
    requires Good(b)
    ensures var fills := Step(b, op, s, trade).fills;
      forall i | 0 <= i < |fills| :: fills[i].tradeId == trade + i && fills[i].symbol == s
  {
    match op
    case SubmitOp(o) => SubmitNumbered(b, o, s, trade);
    case CancelOp(id) =>
    case ModifyOp(r) =>
      if r.orderId in b.index {
        TargetIsResting(b, r.orderId);
        RemovedGood(b, r.orderId);
        SubmitNumbered(Removed(b, r.orderId), Changed(Target(b, r.orderId).value.order, r), s, trade);
      }
  }

  lemma SubmitNumbered(b: Book, o: Order, s: Symbol, trade: nat)
    requires Good(b)
    ensures var fills := Submit(b, o, s, trade).fills;
      forall i | 0 <= i < |fills| :: fills[i].tradeId == trade + i && fills[i].symbol == s
  {
    var resting := b.SideOf(o.side.Other());
    assert AllLive(resting, o.side.Other());
    MatchTakesPrefix(o, resting, s, trade);
    var fills := Match(o, resting, s, trade).fills;
    assert forall i | 0 <= i < |fills| :: FillFits(fills[i], o, resting[i], trade + i, s);
  }

  /** Whether a request makes the same fills under the same numbers if another symbol's request is
      let in first: exactly if not both of them trade. */
  lemma InterleavingRenumbers(x: Exchange, r: Request, q: Request)
    requires AllGood(x) && r.symbol != q.symbol
    ensures Good(BookOf(x, r.symbol)) && Good(BookOf(x, q.symbol)) && Good(BookOf(Perform(x, q), r.symbol))
    ensures var a, b := Step(BookOf(x, r.symbol), r.op, r.symbol, x.trade).fills,
                        Step(BookOf(x, q.symbol), q.op, q.symbol, x.trade).fills;
      Step(BookOf(Perform(x, q), r.symbol), r.op, r.symbol, Perform(x, q).trade).fills == a <==> a == [] || b == []
  {
    BookOfGood(x, r.symbol);
    BookOfGood(x, q.symbol);
    PerformElsewhere(x, q, r.symbol);
    SameFillsIff(BookOf(x, r.symbol), r.op, r.symbol, x.trade, Perform(x, q).trade);
  }

  lemma SameFillsIff(b: Book, op: Op, s: Symbol, t: nat, u: nat)
    requires Good(b)
    ensures var fills := Step(b, op, s, t).fills; Step(b, op, s, u).fills == fills <==> t == u || fills == []
  {
    FillsAreNumbered(b, op, s, t);
    FillsAreNumbered(b, op, s, u);
    AlikeWithItself([op], b);
    assert AlikeOps([op][0], [op][0]);
    StepAlike(b, b, op, op, s, t, u);
    var fills, others := Step(b, op, s, t).fills, Step(b, op, s, u).fills;
    assert fills != [] ==> fills[0].tradeId == t && others[0].tradeId == u;
    assert fills == [] ==> others == [];
  }

  // ---------------------------------------------------------------- when trade ids come back

  function AllFills(blocks: seq<Block>): seq<Fill> {
    if blocks == [] then [] else blocks[0].fills + AllFills(blocks[1..])
  }

  function SymbolsOf(blocks: seq<Block>): seq<Symbol> {
    if blocks == [] then [] else [blocks[0].symbol] + SymbolsOf(blocks[1..])
  }

  /** The symbols of the requests that trade, in the order in which they do. */
  function TradingOrder(x: Exchange, rs: seq<Request>): seq<Symbol>
    requires AllGood(x)
  {
    SymbolsOf(Trades(x, rs))
  }

  lemma NumberedJoin(f: seq<Fill>, g: seq<Fill>, trade: nat, next: nat)
    requires next == trade + |f|
    ensures Numbered(f + g, trade) == Numbered(f, trade) + Numbered(g, next)
  {
  }

  lemma AlikeIsRenumbered(f: seq<Fill>, g: seq<Fill>, t: nat, u: nat)
    requires AlikeFills(f, g, t, u)
    ensures g == Numbered(Unnumbered(f), u)
  {
    forall i | 0 <= i < |f|
      ensures g[i] == Numbered(Unnumbered(f), u)[i]
    {
      assert g[i] == f[i].(tradeId := u + i);
    }
  }

  lemma StepAlikeItself(b: Book, op: Op, s: Symbol, t: nat, u: nat)
    requires Good(b)
    ensures AlikeFills(Step(b, op, s, t).fills, Step(b, op, s, u).fills, t, u)
  {
    AlikeWithItself([op], b);
    assert AlikeOps([op][0], [op][0]);
    StepAlike(b, b, op, op, s, t, u);
  }

  lemma BlockFills(b: Book, op: Op, s: Symbol)
    requires Good(b)
    ensures AllFills(BlockOf(b, op, s)) == Unnumbered(Step(b, op, s, 0).fills)
  {
    var block := BlockOf(b, op, s);
    if block == [] {
      assert Unnumbered([]) == [];
    } else {
      assert block[1..] == [] && block[0].fills + [] == block[0].fills;
    }
  }

  /** A request's fills are its block, numbered from the counter. */
  lemma StepFillsAreBlock(b: Book, op: Op, s: Symbol, trade: nat)
    requires Good(b)
    ensures Step(b, op, s, trade).fills == Numbered(AllFills(BlockOf(b, op, s)), trade)
  {
    StepAlikeItself(b, op, s, 0, trade);
    AlikeIsRenumbered(Step(b, op, s, 0).fills, Step(b, op, s, trade).fills, 0, trade);
    BlockFills(b, op, s);
  }

  lemma {:induction false} AllFillsJoin(a: seq<Block>, b: seq<Block>)
    ensures AllFills(a + b) == AllFills(a) + AllFills(b)
  {
    if a == [] {
      assert a + b == b;
    } else {
      AllFillsJoin(a[1..], b);
      assert (a + b)[1..] == a[1..] + b;
      assert AllFills(a + b) == a[0].fills + (AllFills(a[1..]) + AllFills(b));
    }
  }

  /** A block has a fill, and its fills its symbol and no numbers. */
  predicate ProperBlock(b: Block) {
    b.fills != [] && forall i | 0 <= i < |b.fills| :: b.fills[i].symbol == b.symbol && b.fills[i].tradeId == 0
  }

  ghost predicate Proper(blocks: seq<Block>) {
    forall i | 0 <= i < |blocks| :: ProperBlock(blocks[i])
  }

  lemma BlockIsProper(b: Book, op: Op, s: Symbol)
    requires Good(b)
    ensures Proper(BlockOf(b, op, s))
  {
    FillsAreNumbered(b, op, s, 0);
  }

  /** The first request of a run: its block, and the exchange behind it. */
  lemma FirstTrades(x: Exchange, rs: seq<Request>) returns (block: seq<Block>, x': Exchange)
    requires AllGood(x) && rs != []
    ensures AllGood(x') && Proper(block)
    ensures Trades(x, rs) == block + Trades(x', rs[1..])
    ensures FillsOf(x, rs) == Numbered(AllFills(block), x.trade) + FillsOf(x', rs[1..])
    ensures x'.trade == x.trade + |AllFills(block)|
  {
    var r := rs[0];
    BookOfGood(x, r.symbol);
    var b := BookOf(x, r.symbol);
    block, x' := BlockOf(b, r.op, r.symbol), Perform(x, r);
    StepFillsAreBlock(b, r.op, r.symbol, x.trade);
    BlockIsProper(b, r.op, r.symbol);
  }

  /** The fills of a run are its blocks, numbered through. */
  lemma {:induction false} FillsAreTrades(x: Exchange, rs: seq<Request>) returns (blocks: seq<Block>, all: seq<Fill>)
    requires AllGood(x)
    ensures blocks == Trades(x, rs) && all == AllFills(blocks)
    ensures FillsOf(x, rs) == Numbered(all, x.trade) && Proper(blocks)
    decreases |rs|
  {
    if rs == [] {
      blocks, all := [], [];
      assert Numbered(all, x.trade) == [];
    } else {
      var first, x' := FirstTrades(x, rs);
      var others, more := FillsAreTrades(x', rs[1..]);
      blocks, all := first + others, AllFills(first) + more;
      AllFillsJoin(first, others);
      NumberedJoin(AllFills(first), more, x.trade, x'.trade);
      ProperJoin(first, others);
    }
  }

  lemma ProperJoin(a: seq<Block>, b: seq<Block>)
    requires Proper(a) && Proper(b)
    ensures Proper(a + b)
  {
  }

  lemma {:induction false} ProperFills(blocks: seq<Block>)
    requires Proper(blocks)
    ensures forall i | 0 <= i < |AllFills(blocks)| :: AllFills(blocks)[i].tradeId == 0
  {
    if blocks != [] {
      assert ProperBlock(blocks[0]);
      ProperFills(blocks[1..]);
    }
  }

  lemma NumberedIsInjective(f: seq<Fill>, g: seq<Fill>, trade: nat)
    requires forall i | 0 <= i < |f| :: f[i].tradeId == 0
    requires forall i | 0 <= i < |g| :: g[i].tradeId == 0
    ensures Numbered(f, trade) == Numbered(g, trade) <==> f == g
  {
    if Numbered(f, trade) == Numbered(g, trade) {
      assert |f| == |g|;
      forall i | 0 <= i < |f|
        ensures f[i] == g[i]
      {
        assert Numbered(f, trade)[i].(tradeId := 0) == f[i] && Numbered(g, trade)[i].(tradeId := 0) == g[i];
      }
    }
  }

  ghost predicate SameForEach(a: seq<Block>, b: seq<Block>) {
    forall s {:trigger BlocksFor(a, s)} :: BlocksFor(a, s) == BlocksFor(b, s)
  }

  /** If every symbol has the same blocks here and there and the first ones are of one symbol, they
      are the same block, and every symbol has the same blocks behind them. */
  lemma SameFirst(a: seq<Block>, b: seq<Block>)
    requires SameForEach(a, b) && a != [] && b != [] && a[0].symbol == b[0].symbol
    ensures a[0] == b[0] && SameForEach(a[1..], b[1..])
  {
    var s := a[0].symbol;
    assert BlocksFor(a, s) == BlocksFor(b, s);
    assert BlocksFor(a, s)[0] == a[0] && BlocksFor(b, s)[0] == b[0];
    forall t
      ensures BlocksFor(a[1..], t) == BlocksFor(b[1..], t)
    {
      assert BlocksFor(a, t) == BlocksFor(b, t);
      if t == s {
        assert BlocksFor(a, t)[1..] == BlocksFor(a[1..], t) && BlocksFor(b, t)[1..] == BlocksFor(b[1..], t);
      } else {
        assert BlocksFor(a, t) == BlocksFor(a[1..], t) && BlocksFor(b, t) == BlocksFor(b[1..], t);
      }
    }
  }

  lemma BothEmpty(a: seq<Block>, b: seq<Block>)
    requires SameForEach(a, b)
    ensures a == [] <==> b == []
  {
    var s := if a != [] then a[0].symbol else if b != [] then b[0].symbol else [];
    assert BlocksFor(a, s) == BlocksFor(b, s);
  }

  /** Blocks that are the same for each symbol are the same if their symbols come in the same order. */
  lemma {:induction false} OrderDecides(a: seq<Block>, b: seq<Block>)
    requires SameForEach(a, b) && SymbolsOf(a) == SymbolsOf(b)
    ensures a == b
  {
    BothEmpty(a, b);
    if a != [] {
      assert SymbolsOf(a)[0] == a[0].symbol && SymbolsOf(b)[0] == b[0].symbol;
      assert SymbolsOf(a)[1..] == SymbolsOf(a[1..]) && SymbolsOf(b)[1..] == SymbolsOf(b[1..]);
      SameFirst(a, b);
      OrderDecides(a[1..], b[1..]);
      assert a == [a[0]] + a[1..] && b == [b[0]] + b[1..];
    }
  }

  /** Blocks that are the same for each symbol are the same if their fills are. */
  lemma {:induction false} FillsDecide(a: seq<Block>, b: seq<Block>)
    requires SameForEach(a, b) && Proper(a) && Proper(b) && AllFills(a) == AllFills(b)
    ensures a == b
  {
    BothEmpty(a, b);
    if a != [] {
      assert ProperBlock(a[0]) && ProperBlock(b[0]);
      assert AllFills(a)[0] == a[0].fills[0] && AllFills(b)[0] == b[0].fills[0];
      SameFirst(a, b);
      assert AllFills(a)[|a[0].fills|..] == AllFills(a[1..]) && AllFills(b)[|b[0].fills|..] == AllFills(b[1..]);
      FillsDecide(a[1..], b[1..]);
      assert a == [a[0]] + a[1..] && b == [b[0]] + b[1..];
    }
  }

  ghost predicate SameRequestsForEach(rs: seq<Request>, qs: seq<Request>) {
    forall s {:trigger OpsFor(rs, s)} :: AlikeRuns(OpsFor(rs, s), OpsFor(qs, s))
  }

  /**
   * Two runs that give every symbol the same requests, however they interleave the symbols, make
   * the same fills under the same trade ids if and only if their trading requests come in the same
   * order of symbols.  Requests that trade nothing may come anywhere.
   */
  lemma TradeIdsRepeatIff(x: Exchange, y: Exchange, rs: seq<Request>, qs: seq<Request>)
    requires AllGood(x) && AllGood(y) && AlikeExchanges(x, y) && SameRequestsForEach(rs, qs)
    ensures FillsOf(x, rs) == FillsOf(y, qs) <==> TradingOrder(x, rs) == TradingOrder(y, qs)
  {
    var a, _ := FillsAreTrades(x, rs);
    var b, _ := FillsAreTrades(y, qs);
    ProperFills(a);
    ProperFills(b);
    NumberedIsInjective(AllFills(a), AllFills(b), x.trade);
    SameTradesForEach(x, y, rs, qs);
    if TradingOrder(x, rs) == TradingOrder(y, qs) {
      OrderDecides(a, b);
    }
    if FillsOf(x, rs) == FillsOf(y, qs) {
      FillsDecide(a, b);
    }
  }

  lemma SameTradesForEach(x: Exchange, y: Exchange, rs: seq<Request>, qs: seq<Request>)
    requires AllGood(x) && AllGood(y) && AlikeExchanges(x, y) && SameRequestsForEach(rs, qs)
    ensures SameForEach(Trades(x, rs), Trades(y, qs))
  {
    forall s
      ensures BlocksFor(Trades(x, rs), s) == BlocksFor(Trades(y, qs), s)
    {
      SymbolsAreIndependent(x, rs, s);
      SymbolsAreIndependent(y, qs, s);
      assert AlikeRuns(OpsFor(rs, s), OpsFor(qs, s));
      TradesAfterAlike(BookOf(x, s), BookOf(y, s), OpsFor(rs, s), OpsFor(qs, s), s);
    }
  }

  // ---------------------------------------------------------------- books without clients

  predicate Clientless(op: Op) { op.SubmitOp? ==> op.order.clientId == 0 }

  /** No order in the book knows its client. */
  ghost predicate NoClients(b: Book) {
    forall side, n {:trigger n in b.SideOf(side)} | n in b.SideOf(side) :: n.order.clientId == 0
  }

  lemma WalkNoClients(b: Book, o: Order, symbol: Symbol, trade: nat)
    requires Good(b) && NoClients(b)
    ensures NoClients(Walk(b, o, symbol, trade).0)
  {
    var opp := o.side.Other();
    var (b', m) := Walk(b, o, symbol, trade);
    assert AllLive(b.SideOf(opp), opp);
    MatchTakesPrefix(o, b.SideOf(opp), symbol, trade);
    forall side, n | n in b'.SideOf(side)
      ensures n.order.clientId == 0
    {
      if side == opp {
        var i :| 0 <= i < |m.resting| && m.resting[i] == n;
        MatchedElement(m, b.SideOf(opp), i);
        assert b.SideOf(opp)[|m.gone| + i] in b.SideOf(opp);
      } else {
        assert n in b.SideOf(side);
      }
    }
  }

  lemma SubmitNoClients(b: Book, o: Order, symbol: Symbol, trade: nat)
    requires Good(b) && NoClients(b) && o.clientId == 0
    ensures NoClients(Submit(b, o, symbol, trade).book)
  {
    var (b', m) := Walk(b, o, symbol, trade);
    WalkNoClients(b, o, symbol, trade);
    MatchConserves(o, b.SideOf(o.side.Other()), symbol, trade);
    var n, b'' := Node(b'.nextNode, m.incoming), Rest(b', m.incoming);
    PlacedHolds(o.side, b'.SideOf(o.side), n);
    forall side, x | x in b''.SideOf(side)
      ensures x.order.clientId == 0
    {
      assert x == n || x in b'.SideOf(side);
    }
  }

  lemma RemovedNoClients(b: Book, orderId: nat)
    requires Good(b) && NoClients(b) && orderId in b.index
    ensures NoClients(Removed(b, orderId))
  {
    var e, b' := b.index[orderId], Removed(b, orderId);
    WithoutHolds(e.side, b.SideOf(e.side), e.node, b.nextNode);
    forall side, x | x in b'.SideOf(side)
      ensures x.order.clientId == 0
    {
      assert x in b.SideOf(side);
    }
  }

  lemma StepNoClients(b: Book, op: Op, symbol: Symbol, trade: nat)
    requires Good(b) && NoClients(b) && Clientless(op)
    ensures NoClients(Step(b, op, symbol, trade).book)
  {
    match op
    case SubmitOp(o) => SubmitNoClients(b, o, symbol, trade);
    case CancelOp(id) => if id in b.index { RemovedNoClients(b, id); }
    case ModifyOp(r) =>
      if r.orderId in b.index {
        TargetIsResting(b, r.orderId);
        RemovedGood(b, r.orderId);
        RemovedNoClients(b, r.orderId);
        LookupIsMember(b.SideOf(b.index[r.orderId].side), b.index[r.orderId].node);
        assert Target(b, r.orderId).value in b.SideOf(b.index[r.orderId].side);
        SubmitNoClients(Removed(b, r.orderId), Changed(Target(b, r.orderId).value.order, r), symbol, trade);
      }
  }

  lemma {:induction false} RunNoClients(x: Exchange, rs: seq<Request>, s: Symbol)
    requires AllGood(x) && NoClients(BookOf(x, s)) && forall i | 0 <= i < |rs| :: Clientless(rs[i].op)
    ensures NoClients(BookOf(PerformAll(x, rs), s))
    decreases |rs|
  {
    if rs != [] {
      PerformElsewhere(x, rs[0], s);
      if rs[0].symbol == s {
        StepNoClients(BookOf(x, s), rs[0].op, s, x.trade);
      }
      RunNoClients(Perform(x, rs[0]), rs[1..], s);
    }
  }

  /** Books alike but for the clients are the same exactly when the other has no clients either. */
  lemma SameIffNoClients(a: Book, b: Book)
    requires AlikeBooks(a, b) && NoClients(a)
    ensures a == b <==> NoClients(b)
  {
    if NoClients(b) {
      forall i | 0 <= i < |a.bids|
        ensures a.bids[i] == b.bids[i]
      {
        assert a.bids[i] in a.SideOf(Buy) && b.bids[i] in b.SideOf(Buy);
      }
      forall i | 0 <= i < |a.asks|
        ensures a.asks[i] == b.asks[i]
      {
        assert a.asks[i] in a.SideOf(Sell) && b.asks[i] in b.SideOf(Sell);
      }
    }
  }
}
