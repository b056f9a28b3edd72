/**
 * Logs from which not everything comes back: one with a client's order, one of two symbols that trade
 * in one order and are logged in the other, and one of two workers that draw their trade ids between
 * each other's fills.
 */
module RecoveryCases {
  import opened Bytes
  import opened ExchangeTypes
  import opened MatchingModel
  import opened BookModel
  import opened BookLaws
  import opened WalModel
  import opened ExchangeModel
  import opened DrawModel
  import opened RecoveryModel

  /** A request for some shares at 100. */
  function Shares(id: nat, symbol: Symbol, side: Side, quantity: nat, clientId: nat): Request {
    Request(symbol, SubmitOp(Order(id, symbol, side, Limit, 100, quantity, quantity, id, clientId)))
  }

  const A: Symbol := [65]
  const B: Symbol := [66]
  const SELL_A: Request := Shares(1, A, Sell, 1, 0)
  const SELL_A_AGAIN: Request := Shares(2, A, Sell, 1, 0)
  const SELL_B: Request := Shares(3, B, Sell, 1, 0)
  const BUY_A: Request := Shares(4, A, Buy, 1, 0)
  const BUY_TWO_A: Request := Shares(5, A, Buy, 2, 0)
  const BUY_B: Request := Shares(6, B, Buy, 1, 0)

  // ---------------------------------------------------------------- logs of submissions

  /** A submission with nothing about it that the log cannot hold. */
  predicate Plain(r: Request) {
    r.op.SubmitOp? &&
    var o := r.op.order;
    && o.symbol == r.symbol && SymbolFits(o.symbol) && o.remaining == o.quantity && o.clientId == 0
    && o.orderId < 256 && o.price < 256 && o.quantity < 256 && o.timestamp < 256
  }

  ghost predicate AllPlain(rs: seq<Request>) {
    forall i | 0 <= i < |rs| :: Plain(rs[i])
  }

  function EntriesOf(rs: seq<Request>): seq<LogEntry>
    requires forall i | 0 <= i < |rs| :: rs[i].op.SubmitOp?
  {
    if rs == [] then [] else [OrderEntry(rs[0].op.order)] + EntriesOf(rs[1..])
  }

  lemma SmallNumberFits(n: nat, width: nat)
    requires n < 256 && 0 < width
    ensures n < Pow256(width)
  {
  }

  lemma SmallOrderInRange(o: Order)
    requires o.orderId < 256 && o.price < 256 && o.quantity < 256 && o.timestamp < 256
    ensures InRange(OrderEntry(o))
  {
    var v := ValuesOf(OrderEntry(o));
    forall i | 0 <= i < |ORDER|
      ensures Fits(ORDER[i], v[i])
    {
      if ORDER[i].Num? {
        SmallNumberFits(v[i].n, ORDER[i].width);
      }
    }
  }

  /** Plain requests can be logged, and are read back as they are. */
  lemma {:induction false} PlainIsRead(rs: seq<Request>) returns (records: seq<seq<Byte>>)
    requires AllPlain(rs)
    ensures Records(EntriesOf(rs), records) && AllSymbolsFit(EntriesOf(rs))
    ensures Requests(AllAsRead(EntriesOf(rs))) == rs
  {
    if rs == [] {
      records := [];
    } else {
      var more := PlainIsRead(rs[1..]);
      assert Plain(rs[0]);
      records := FirstPlain(rs[0], EntriesOf(rs[1..]), more);
      assert rs == [rs[0]] + rs[1..];
    }
  }

  lemma FirstPlain(r: Request, es: seq<LogEntry>, more: seq<seq<Byte>>) returns (records: seq<seq<Byte>>)
    requires Plain(r) && Records(es, more) && AllSymbolsFit(es)
    ensures var entries := [OrderEntry(r.op.order)] + es;
      && Records(entries, records) && AllSymbolsFit(entries)
      && Requests(AllAsRead(entries)) == [r] + Requests(AllAsRead(es))
  {
    var e := OrderEntry(r.op.order);
    SmallOrderInRange(r.op.order);
    var first := Record(e, Zeros(RECORD_SIZE));
    assert RecordOf(e, first);
    records := [first] + more;
    assert ([e] + es)[1..] == es && records[1..] == more;
    FirstAsRead(e, es);
    KeptIff(r.symbol, 8);
  }

  /** Their log follows them. */
  lemma {:induction false} PlainIsLogged(rs: seq<Request>, s: Symbol)
    requires AllPlain(rs)
    ensures LogsAll(EntriesFor(EntriesOf(rs), s), OpsFor(rs, s), s)
  {
    if rs != [] {
      PlainIsLogged(rs[1..], s);
      assert Plain(rs[0]) && rs == [rs[0]] + rs[1..];
      FirstEntry(OrderEntry(rs[0].op.order), EntriesOf(rs[1..]), s);
      FirstOpFor(rs[0], rs[1..], s);
    }
  }

  /** It also follows requests that are the same for each symbol. */
  lemma PlainFollows(rs: seq<Request>, live: seq<Request>)
    requires AllPlain(rs) && forall s :: OpsFor(rs, s) == OpsFor(live, s)
    ensures LogFollows(EntriesOf(rs), live)
  {
    forall s
      ensures LogsAll(EntriesFor(EntriesOf(rs), s), OpsFor(live, s), s)
    {
      PlainIsLogged(rs, s);
    }
  }

  // ---------------------------------------------------------------- a client

  /** In a book without orders on the other side an order comes to rest, behind those at its price. */
  lemma Rests(b: Book, o: Order, symbol: Symbol, trade: nat)
    requires b.SideOf(o.side.Other()) == [] && o.kind == Limit && o.remaining > 0
    ensures var r := Submit(b, o, symbol, trade);
      && r.fills == [] && r.book.SideOf(o.side.Other()) == [] && r.book.nextNode == b.nextNode + 1
      && r.book.SideOf(o.side) == Placed(o.side, b.SideOf(o.side), Node(b.nextNode, o))
  {
  }

  /** An order of client 7 that rests is in the log without its client: the recovered book differs. */
  lemma ClientIsLost() returns (live: seq<Request>, records: seq<seq<Byte>>)
    ensures live == [Shares(1, A, Buy, 1, 7)] && Records([OrderEntry(live[0].op.order)], records)
    ensures BookOf(Replay(File(records)), A) != BookOf(PerformAll(OPENING, live), A)
  {
    live := [Shares(1, A, Buy, 1, 7)];
    var o, entries := live[0].op.order, [OrderEntry(live[0].op.order)];
    SmallOrderInRange(o);
    var record := Record(entries[0], Zeros(RECORD_SIZE));
    records := [record];
    assert RecordOf(entries[0], record);
    forall s
      ensures LogsAll(EntriesFor(entries, s), OpsFor(live, s), s)
    {
      FirstOpFor(live[0], [], s);
      FirstEntry(entries[0], [], s);
      assert live == [live[0]] + [] && entries == [entries[0]] + [];
    }
    RecoveryIsExact(live, entries, records, [], A);
    assert File(records) + [] == File(records);
    RestsWithClient(live);
  }

  lemma RestsWithClient(live: seq<Request>)
    requires live == [Shares(1, A, Buy, 1, 7)]
    ensures !NoClients(BookOf(PerformAll(OPENING, live), A))
  {
    Rests(BookModel.EMPTY, live[0].op.order, A, 1);
    PerformElsewhere(OPENING, live[0], A);
    assert live[1..] == [] && PerformAll(OPENING, live) == Perform(OPENING, live[0]);
    var b := BookOf(PerformAll(OPENING, live), A);
    assert Placed(Buy, [], Node(0, live[0].op.order)) == [Node(0, live[0].op.order)];
    assert Node(0, live[0].op.order) in b.SideOf(Buy);
  }

  // ---------------------------------------------------------------- sales and purchases

  /** The first request of a run, by the fills it draws numbers for. */
  lemma FirstDraws(x: Exchange, r: Request, rs: seq<Request>)
    requires AllGood(x)
    ensures Good(BookOf(x, r.symbol))
    ensures DrawsOf(x, [r] + rs)
         == Unnumbered(Step(BookOf(x, r.symbol), r.op, r.symbol, 0).fills) + DrawsOf(Perform(x, r), rs)
  {
    BookOfGood(x, r.symbol);
    assert ([r] + rs)[1..] == rs;
    BlockFills(BookOf(x, r.symbol), r.op, r.symbol);
    AllFillsJoin(BlockOf(BookOf(x, r.symbol), r.op, r.symbol), Trades(Perform(x, r), rs));
  }

  predicate IsSale(r: Request) {
    Plain(r) && r.op.order.side == Sell && r.op.order.kind == Limit && r.op.order.remaining > 0
  }

  /** A book with these sales only, and so many nodes so far. */
  predicate HasSales(b: Book, asks: seq<Node>, n: nat) {
    b.bids == [] && b.asks == asks && b.nextNode == n
  }

  /** A sale put to a book without bids: it rests, draws nothing, and leaves another symbol alone. */
  lemma SaleRests(x: Exchange, sale: Request, asks: seq<Node>, n: nat, rs: seq<Request>, other: Symbol)
    returns (x': Exchange)
    requires AllGood(x) && IsSale(sale) && HasSales(BookOf(x, sale.symbol), asks, n)
    ensures AllGood(x') && DrawsOf(x, [sale] + rs) == DrawsOf(x', rs)
    ensures HasSales(BookOf(x', sale.symbol), Placed(Sell, asks, Node(n, sale.op.order)), n + 1)
    ensures other != sale.symbol ==> BookOf(x', other) == BookOf(x, other)
  {
    x' := Perform(x, sale);
    FirstDraws(x, sale, rs);
    Rests(BookOf(x, sale.symbol), sale.op.order, sale.symbol, 0);
    Rests(BookOf(x, sale.symbol), sale.op.order, sale.symbol, x.trade);
    PerformElsewhere(x, sale, sale.symbol);
    PerformElsewhere(x, sale, other);
    assert Unnumbered([]) == [] && [] + DrawsOf(x', rs) == DrawsOf(x', rs);
  }

  /** Two sales of A and one of B, and then some more. */
  function AfterSales(rs: seq<Request>): seq<Request> {
    [SELL_A] + ([SELL_A_AGAIN] + ([SELL_B] + rs))
  }

  lemma SalesRest(rs: seq<Request>) returns (x: Exchange)
    ensures AllGood(x) && DrawsOf(OPENING, AfterSales(rs)) == DrawsOf(x, rs)
    ensures BookOf(x, A).asks == [Node(0, SELL_A.op.order), Node(1, SELL_A_AGAIN.op.order)]
    ensures BookOf(x, B).asks == [Node(0, SELL_B.op.order)]
  {
    assert A != B by { assert A[0] != B[0]; }
    x := ThreeSalesRest(SELL_A, SELL_A_AGAIN, SELL_B, rs);
  }

  lemma ThreeSalesRest(first: Request, second: Request, other: Request, rs: seq<Request>) returns (x: Exchange)
    requires IsSale(first) && IsSale(second) && IsSale(other) && first.symbol == second.symbol != other.symbol
    requires first.op.order.price == second.op.order.price
    ensures AllGood(x) && DrawsOf(OPENING, [first] + ([second] + ([other] + rs))) == DrawsOf(x, rs)
    ensures BookOf(x, first.symbol).asks == [Node(0, first.op.order), Node(1, second.op.order)]
    ensures BookOf(x, other.symbol).asks == [Node(0, other.op.order)]
  {
    AloneAtItsPrice(Node(0, first.op.order));
    AloneAtItsPrice(Node(0, other.op.order));
    BehindAtItsPrice(Node(0, first.op.order), Node(1, second.op.order));
    var x1 := SaleRests(OPENING, first, [], 0, [second] + ([other] + rs), other.symbol);
    var x2 := SaleRests(x1, second, [Node(0, first.op.order)], 1, [other] + rs, other.symbol);
    x := SaleRests(x2, other, [], 0, rs, first.symbol);
  }

  lemma AloneAtItsPrice(n: Node)
    ensures Placed(Sell, [], n) == [n]
  {
  }

  lemma BehindAtItsPrice(first: Node, second: Node)
    requires first.order.price == second.order.price
    ensures Placed(Sell, [first], second) == [first, second]
  {
    assert [first][1..] == [] && Placed(Sell, [], second) == [second];
  }

  /** A share bought against the first of the shares for sale makes one fill, two shares two. */
  lemma PurchaseFills(b: Book, buy: Order, symbol: Symbol)
    requires b.asks != [] && b.asks[0].order.price == 100 && b.asks[0].order.remaining == 1
    requires buy == Shares(buy.orderId, symbol, Buy, buy.quantity, 0).op.order && 1 <= buy.quantity <= |b.asks| <= 2
    requires |b.asks| == 2 ==> b.asks[1].order.price == 100 && b.asks[1].order.remaining == 1
    ensures |Submit(b, buy, symbol, 0).fills| == buy.quantity
  {
    var t, _ := MatchUnfolds(buy, b.asks, symbol, 0);
    if buy.quantity == 2 {
      var _, _ := MatchUnfolds(After(buy, 1), b.asks[1..], symbol, |t.fills|);
    }
  }

  /** What a purchase after the sales draws: so many fills, all of its symbol. */
  lemma PurchaseDraws(x: Exchange, r: Request, n: nat, rs: seq<Request>) returns (fills: seq<Fill>)
    requires AllGood(x) && r.op.SubmitOp?
    requires |Step(BookOf(x, r.symbol), r.op, r.symbol, 0).fills| == n
    ensures |fills| == n && DrawsOf(x, [r] + rs) == fills + DrawsOf(Perform(x, r), rs)
    ensures WithoutNumbers(fills) && forall i | 0 <= i < n :: fills[i].symbol == r.symbol
  {
    BookOfGood(x, r.symbol);
    FirstDraws(x, r, rs);
    FillsAreNumbered(BookOf(x, r.symbol), r.op, r.symbol, 0);
    fills := Unnumbered(Step(BookOf(x, r.symbol), r.op, r.symbol, 0).fills);
  }

  /** Two purchases of different symbols after the sales, one after the other. */
  lemma TwoPurchases(r: Request, n: nat, q: Request, m: nat) returns (f: seq<Fill>, g: seq<Fill>)
    requires (r, n, q, m) in {(BUY_A, 1, BUY_B, 1), (BUY_B, 1, BUY_A, 1), (BUY_TWO_A, 2, BUY_B, 1)}
    ensures DrawsOf(OPENING, AfterSales([r] + ([q] + []))) == f + g && |f| == n && |g| == m
    ensures WithoutNumbers(f) && forall i | 0 <= i < n :: f[i].symbol == r.symbol
    ensures WithoutNumbers(g) && forall i | 0 <= i < m :: g[i].symbol == q.symbol
  {
    assert A != B by { assert A[0] != B[0]; }
    var x := SalesRest([r] + ([q] + []));
    PurchaseFills(BookOf(x, r.symbol), r.op.order, r.symbol);
    PurchaseFills(BookOf(x, q.symbol), q.op.order, q.symbol);
    BookOfGood(x, r.symbol);
    BookOfGood(x, q.symbol);
    f := PurchaseDraws(x, r, n, [q] + []);
    PerformElsewhere(x, r, q.symbol);
    g := PurchaseDraws(Perform(x, r), q, m, []);
    assert DrawsOf(Perform(Perform(x, r), q), []) == [] && g + [] == g;
  }

  // ---------------------------------------------------------------- symbols logged the other way round

  /** Requests for different symbols change places. */
  lemma SwappedForEach(r: Request, q: Request, s: Symbol)
    requires r.symbol != q.symbol
    ensures OpsFor(AfterSales([r] + ([q] + [])), s) == OpsFor(AfterSales([q] + ([r] + [])), s)
  {
    FirstOpFor(r, [q] + [], s);
    FirstOpFor(q, [], s);
    FirstOpFor(q, [r] + [], s);
    FirstOpFor(r, [], s);
    SalesFirst([r] + ([q] + []), s);
    SalesFirst([q] + ([r] + []), s);
  }

  lemma SalesFirst(rs: seq<Request>, s: Symbol)
    ensures OpsFor(AfterSales(rs), s) == OpsFor(AfterSales([]), s) + OpsFor(rs, s)
  {
    var sales := AfterSales([]);
    assert AfterSales(rs) == sales + rs;
    OpsForJoin(sales, rs, s);
  }

  lemma SalesArePlain(rs: seq<Request>)
    requires AllPlain(rs)
    ensures AllPlain(AfterSales(rs))
  {
  }

  /** The two purchases executed in one order and logged in the other: every symbol's requests are in
      the log in their order, and still the fills come with other trade ids. */
  lemma SwappedPurchasesRenumber() returns (live: seq<Request>, logged: seq<Request>, records: seq<seq<Byte>>)
    ensures live == AfterSales([BUY_A] + ([BUY_B] + [])) && logged == AfterSales([BUY_B] + ([BUY_A] + []))
    ensures AllPlain(logged) && LogFollows(EntriesOf(logged), live) && Records(EntriesOf(logged), records)
    ensures FillsOf(OPENING, Requests(ReadAll(File(records)))) != FillsOf(OPENING, live)
  {
    assert A != B by { assert A[0] != B[0]; }
    live, logged := AfterSales([BUY_A] + ([BUY_B] + [])), AfterSales([BUY_B] + ([BUY_A] + []));
    SalesArePlain([BUY_B] + ([BUY_A] + []));
    records := PlainIsRead(logged);
    forall s ensures OpsFor(logged, s) == OpsFor(live, s) { SwappedForEach(BUY_B, BUY_A, s); }
    PlainFollows(logged, live);
    LogRoundTrip(EntriesOf(logged), records, []);
    assert File(records) + [] == File(records);
    SwappedDraws();
    OneAtATimeIsDrawn(OPENING, live);
    TradeIdsComeBackIff(live, DrawsOf(OPENING, live), EntriesOf(logged), records, []);
  }

  lemma SwappedDraws()
    ensures FillSymbols(DrawsOf(OPENING, AfterSales([BUY_A] + ([BUY_B] + []))))
         != FillSymbols(DrawsOf(OPENING, AfterSales([BUY_B] + ([BUY_A] + []))))
  {
    assert A != B by { assert A[0] != B[0]; }
    var f, f' := TwoPurchases(BUY_A, 1, BUY_B, 1);
    var g, g' := TwoPurchases(BUY_B, 1, BUY_A, 1);
    assert FillSymbols(f + f')[0] == A && FillSymbols(g + g')[0] == B;
  }

  // ---------------------------------------------------------------- draws between each other's

  lemma SwappedFills(a: Fill, b: Fill, s: Symbol)
    requires a.symbol != b.symbol
    ensures FillsFor([a] + ([b] + []), s) == FillsFor([b] + ([a] + []), s)
  {
    FirstFillFor(a, [b] + [], s);
    FirstFillFor(b, [], s);
    FirstFillFor(b, [a] + [], s);
    FirstFillFor(a, [], s);
  }

  /** Two shares of A are bought, and one of B; the worker with B draws its number between the two of
      the worker with A.  The log has the requests in the very order in which they were put. */
  lemma OverlappingDrawsRenumber() returns (live: seq<Request>, draws: seq<Fill>, records: seq<seq<Byte>>)
    ensures live == AfterSales([BUY_TWO_A] + ([BUY_B] + [])) && AllPlain(live)
    ensures |draws| == 3 && DrawnBy(OPENING, live, draws)
    ensures draws[0].symbol == A && draws[1].symbol == B && draws[2].symbol == A
    ensures LogFollows(EntriesOf(live), live) && Records(EntriesOf(live), records)
    ensures Requests(ReadAll(File(records))) == live && FillsOf(OPENING, live) != Numbered(draws, 1)
  {
    assert A != B by { assert A[0] != B[0]; }
    live := AfterSales([BUY_TWO_A] + ([BUY_B] + []));
    SalesArePlain([BUY_TWO_A] + ([BUY_B] + []));
    records := PlainIsRead(live);
    PlainFollows(live, live);
    LogRoundTrip(EntriesOf(live), records, []);
    assert File(records) + [] == File(records);
    draws := OverlappingDraws(live);
    TradeIdsComeBackIff(live, draws, EntriesOf(live), records, []);
  }

  lemma OverlappingDraws(live: seq<Request>) returns (draws: seq<Fill>)
    requires live == AfterSales([BUY_TWO_A] + ([BUY_B] + []))
    ensures |draws| == 3 && DrawnBy(OPENING, live, draws)
    ensures draws[0].symbol == A && draws[1].symbol == B && draws[2].symbol == A
    ensures FillSymbols(draws) != FillSymbols(DrawsOf(OPENING, live))
  {
    assert A != B by { assert A[0] != B[0]; }
    var f, g := TwoPurchases(BUY_TWO_A, 2, BUY_B, 1);
    OneAtATimeIsDrawn(OPENING, live);
    OneByOne(f, g);
    draws := DrawnOtherwise(live, f, g);
    assert FillSymbols(draws)[1] == B && FillSymbols(f + g)[1] == A;
  }

  lemma OneByOne(f: seq<Fill>, g: seq<Fill>)
    requires |f| == 2 && |g| == 1
    ensures f + g == [f[0]] + ([f[1]] + ([g[0]] + []))
  {
  }

  lemma DrawnOtherwise(live: seq<Request>, f: seq<Fill>, g: seq<Fill>) returns (draws: seq<Fill>)
    requires |f| == 2 && |g| == 1 && f[1].symbol != g[0].symbol && WithoutNumbers(f) && WithoutNumbers(g)
    requires DrawnBy(OPENING, live, [f[0]] + ([f[1]] + ([g[0]] + [])))
    ensures |draws| == 3 && draws[0] == f[0] && draws[1] == g[0] && draws[2] == f[1] && DrawnBy(OPENING, live, draws)
  {
    draws := [f[0]] + ([g[0]] + ([f[1]] + []));
    forall s
      ensures DrawnFor(OPENING, live, draws, s)
    {
      assert DrawnFor(OPENING, live, [f[0]] + ([f[1]] + ([g[0]] + [])), s);
      SwappedFills(f[1], g[0], s);
      FirstFillFor(f[0], [f[1]] + ([g[0]] + []), s);
      FirstFillFor(f[0], [g[0]] + ([f[1]] + []), s);
    }
  }
}
