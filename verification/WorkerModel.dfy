/**
 * The workers of the exchange.  A worker takes the lock of a request's book, puts the request in the
 * queue of the log, executes it, drawing a trade id for each fill, and lets go of the lock; later it
 * puts the fills in the queue.  Any number of workers interleave with each other and with the log's
 * writer at every atomic step of the queue and at every draw.
 */
module WorkerModel {
  import opened Bytes
  import opened ExchangeTypes
  import opened BookModel
  import opened BookLaws
  import opened WalModel
  import opened ExchangeModel
  import opened DrawModel
  import opened RecoveryModel
  import Q = MpscQueueModel

  /** Where a worker that holds a lock stands; the fills of its request that it has drawn numbers
      for, and those it has still to. */
  datatype Phase = Locked(r: Request) | Logging(r: Request) | Matching(r: Request, done: seq<Fill>, todo: seq<Fill>)

  /** The exchange as it was started and as it is, the holders of the books' locks, the workers holding
      one, the queue of the log, and as history the requests in the order in which they were finished
      and the fills in the order in which their numbers were drawn. */
  datatype State = State(start: Exchange, x: Exchange, held: map<Symbol, nat>, busy: map<nat, Phase>,
                         queue: Q.State<LogEntry>, live: seq<Request>, draws: seq<Fill>)

  function Initial(stub: nat, start: Exchange): (s: State)
    requires AllGood(start)
    ensures Q.Inv(s.queue) && AllGood(s.x)
  {
    Q.InitialInv<LogEntry>(stub);
    State(start, start, map[], map[], Q.Initial(stub), [], [])
  }

  datatype Step =
    | Lock(t: nat, r: Request)
    | Log(t: nat, e: LogEntry)        // the worker enters enqueue with a request
    | LogFill(t: nat, e: LogEntry)    // or, without a lock, with a fill
    | InQueue(step: Q.Step<LogEntry>) // the other steps of enqueue, and those of the writer
    | Begin(t: nat)                   // the request is in the queue, and its execution begins
    | Draw(t: nat)                    // one fill of it gets its number
    | Finish(t: nat)

  predicate Enabled(s: State, step: Step) {
    match step
    case Lock(t, r) => t !in s.busy && t !in s.queue.inside && r.symbol !in s.held
    case Log(t, e) =>
      t in s.busy && s.busy[t].Locked? && Logs(e, s.busy[t].r) && t !in s.queue.inside && !s.queue.closed
    case LogFill(t, e) => t !in s.busy && e.FillEntry? && t !in s.queue.inside
    case InQueue(q) => !q.Enter? && Q.Enabled(s.queue, q)
    case Begin(t) => t in s.busy && s.busy[t].Logging? && t !in s.queue.inside
    case Draw(t) => t in s.busy && s.busy[t].Matching? && s.busy[t].todo != []
    case Finish(t) => t in s.busy && s.busy[t].Matching? && s.busy[t].todo == []
  }

  function QueueStep(s: State, step: Q.Step<LogEntry>): State
    requires Q.Enabled(s.queue, step) && Q.Safe(s.queue, step)
  {
    s.(queue := Q.Next(s.queue, step))
  }

  /** The fills of a request on the book as it stands; which numbers they get is another matter. */
  function FillsOn(x: Exchange, r: Request): seq<Fill>
    requires AllGood(x)
  {
    BookOfGood(x, r.symbol);
    Unnumbered(BookLaws.Step(BookOf(x, r.symbol), r.op, r.symbol, 0).fills)
  }

  /** The exchange with the book of one request changed. */
  function Executed(x: Exchange, r: Request): Exchange
    requires AllGood(x)
  {
    BookOfGood(x, r.symbol);
    x.(books := x.books[r.symbol := BookLaws.Step(BookOf(x, r.symbol), r.op, r.symbol, 0).book])
  }

  function Next(s: State, step: Step): State
    requires Q.Inv(s.queue) && AllGood(s.x) && Enabled(s, step)
  {
    match step
    case Lock(t, r) => s.(held := s.held[r.symbol := t], busy := s.busy[t := Locked(r)])
    case Log(t, e) => QueueStep(s, Q.Enter(t, e)).(busy := s.busy[t := Logging(s.busy[t].r)])
    case LogFill(t, e) => QueueStep(s, Q.Enter(t, e))
    case InQueue(q) => Q.EnabledIsSafe(s.queue, q); QueueStep(s, q)
    case Begin(t) => s.(busy := s.busy[t := Matching(s.busy[t].r, [], FillsOn(s.x, s.busy[t].r))])
    case Draw(t) =>
      var Matching(r, done, todo) := s.busy[t];
      s.(x := s.x.(trade := s.x.trade + 1), draws := s.draws + [todo[0]],
         busy := s.busy[t := Matching(r, done + [todo[0]], todo[1..])])
    case Finish(t) =>
      var r := s.busy[t].r;
      s.(x := Executed(s.x, r), live := s.live + [r], held := s.held - {r.symbol}, busy := s.busy - {t})
  }

  // ---------------------------------------------------------------- locks, queue and log

  /** A lock is held by the worker that is busy with the symbol, and by no other. */
  ghost predicate LocksOk(s: State) {
    && (forall t | t in s.busy :: s.busy[t].r.symbol in s.held && s.held[s.busy[t].r.symbol] == t)
    && (forall a | a in s.held :: s.held[a] in s.busy && s.busy[s.held[a]].r.symbol == a)
  }

  /** Who is inside enqueue is there with its request's entry or with a fill. */
  predicate InsideOk(s: State, t: nat) {
    t in s.queue.inside ==>
      if t in s.busy then
        s.busy[t].Logging? && (s.queue.inside[t].Admitted? ==> Logs(s.queue.inside[t].value, s.busy[t].r))
      else
        s.queue.inside[t].Admitted? ==> s.queue.inside[t].value.FillEntry?
  }

  ghost predicate AllInsideOk(s: State) {
    forall t {:trigger InsideOk(s, t)} :: InsideOk(s, t)
  }

  /** The worker's request is in the queue, and not finished yet. */
  predicate Swapped(s: State, t: nat) {
    t in s.busy && !s.busy[t].Locked? && (t in s.queue.inside ==> s.queue.inside[t].Linking?)
  }

  /** The operation for a symbol that is logged and not finished yet. */
  function InFlight(s: State, a: Symbol): seq<Op> {
    if a in s.held && Swapped(s, s.held[a]) then [s.busy[s.held[a]].r.op] else []
  }

  /** The log has a symbol's operations in the order of execution, and then the one in flight. */
  ghost predicate Follows(s: State, a: Symbol) {
    LogsAll(EntriesFor(s.queue.order, a), OpsFor(s.live, a) + InFlight(s, a), a)
  }

  ghost predicate AllFollow(s: State) {
    forall a {:trigger Follows(s, a)} :: Follows(s, a)
  }

  // ---------------------------------------------------------------- books and draws

  /** The fills of the request in execution for a symbol that have their numbers. */
  function Done(s: State, a: Symbol): seq<Fill> {
    if a in s.held && s.held[a] in s.busy && s.busy[s.held[a]].Matching? then s.busy[s.held[a]].done else []
  }

  /** A symbol's book is where its requests have brought it, and its draws are their fills. */
  ghost predicate BookOk(s: State, a: Symbol) {
    && Good(BookOf(s.start, a))
    && BookOf(s.x, a) == BookAfter(BookOf(s.start, a), OpsFor(s.live, a), a)
    && FillsFor(s.draws, a) == AllFills(TradesAfter(BookOf(s.start, a), OpsFor(s.live, a), a)) + Done(s, a)
  }

  /** A request in execution: the fills with and without numbers are those it makes. */
  predicate MatchingOk(s: State, t: nat)
    requires AllGood(s.x)
  {
    t in s.busy && s.busy[t].Matching? ==>
      t !in s.queue.inside && s.busy[t].done + s.busy[t].todo == FillsOn(s.x, s.busy[t].r)
  }

  ghost predicate ExecutionOk(s: State) {
    && AllGood(s.x) && AllGood(s.start) && s.x.trade == s.start.trade + |s.draws| && WithoutNumbers(s.draws)
    && (forall a {:trigger BookOk(s, a)} :: BookOk(s, a))
    && (forall t {:trigger MatchingOk(s, t)} :: MatchingOk(s, t))
  }

  ghost predicate Inv(s: State) {
    Q.Inv(s.queue) && LocksOk(s) && AllInsideOk(s) && AllFollow(s) && ExecutionOk(s)
  }

  lemma InitialInv(stub: nat, start: Exchange)
    requires AllGood(start)
    ensures Inv(Initial(stub, start))
  {
    Q.InitialInv<LogEntry>(stub);
    var s := Initial(stub, start);
    forall a
      ensures Follows(s, a)
    {
      assert [] + InFlight(s, a) == [];
    }
    forall a
      ensures BookOk(s, a)
    {
      InitialBook(start, a);
      assert [] + Done(s, a) == [];
    }
  }

  lemma InitialBook(start: Exchange, a: Symbol)
    requires AllGood(start)
    ensures Good(BookOf(start, a)) && OpsFor([], a) == []
    ensures BookAfter(BookOf(start, a), [], a) == BookOf(start, a)
    ensures AllFills(TradesAfter(BookOf(start, a), [], a)) == [] && FillsFor([], a) == []
  {
    BookOfGood(start, a);
  }

  /** A step that neither changes the exchange nor what is in execution keeps books and draws. */
  lemma ExecutionStays(s: State, s': State)
    requires ExecutionOk(s)
    requires s' == s.(held := s'.held, busy := s'.busy, queue := s'.queue)
    requires forall a {:trigger Done(s', a)} :: Done(s', a) == Done(s, a)
    requires forall t | t in s'.busy && s'.busy[t].Matching? ::
      t in s.busy && s.busy[t] == s'.busy[t] && (t in s'.queue.inside ==> t in s.queue.inside)
    ensures ExecutionOk(s')
  {
    forall a
      ensures BookOk(s', a)
    {
      assert BookOk(s, a) && Done(s', a) == Done(s, a);
    }
    forall t
      ensures MatchingOk(s', t)
    {
      assert MatchingOk(s, t);
    }
  }

  lemma OpsForLast(rs: seq<Request>, r: Request, a: Symbol)
    ensures r.symbol == a ==> OpsFor(rs + [r], a) == OpsFor(rs, a) + [r.op]
    ensures r.symbol != a ==> OpsFor(rs + [r], a) == OpsFor(rs, a)
  {
    OpsForJoin(rs, [r], a);
    FirstOpFor(r, [], a);
    assert [r] + [] == [r];
  }

  lemma EntriesForLast(es: seq<LogEntry>, e: LogEntry, a: Symbol)
    ensures EntriesFor(es + [e], a) == EntriesFor(es, a) + if !e.FillEntry? && SymbolOf(e) == a then [e] else []
  {
    EntriesForJoin(es, [e], a);
    FirstEntry(e, [], a);
    assert [e] + [] == [e];
  }

  /** One more operation for a book. */
  lemma {:induction false} LastOp(b: Book, ops: seq<Op>, op: Op, a: Symbol) returns (c: Book)
    requires Good(b)
    ensures Good(c) && c == BookAfter(b, ops, a)
    ensures BookAfter(b, ops + [op], a) == BookLaws.Step(c, op, a, 0).book
    ensures TradesAfter(b, ops + [op], a) == TradesAfter(b, ops, a) + BlockOf(c, op, a)
    decreases |ops|
  {
    if ops == [] {
      c := b;
      FirstOpDone(b, op, [], a, 0);
      assert ops + [op] == [op] + [];
    } else {
      var first, more := ops[0], ops[1..];
      assert ops == [first] + more && ops + [op] == [first] + (more + [op]);
      StepGood(b, first, a, 0);
      var b' := BookLaws.Step(b, first, a, 0).book;
      c := LastOp(b', more, op, a);
      OpInFront(b, b', first, more, op, a, c);
    }
  }

  lemma OpInFront(b: Book, b': Book, first: Op, ops: seq<Op>, op: Op, a: Symbol, c: Book)
    requires Good(b) && b' == BookLaws.Step(b, first, a, 0).book && Good(b') && Good(c)
    requires TradesAfter(b', ops + [op], a) == TradesAfter(b', ops, a) + BlockOf(c, op, a)
    ensures BookAfter(b, [first] + ops, a) == BookAfter(b', ops, a)
    ensures BookAfter(b, [first] + (ops + [op]), a) == BookAfter(b', ops + [op], a)
    ensures TradesAfter(b, [first] + (ops + [op]), a) == TradesAfter(b, [first] + ops, a) + BlockOf(c, op, a)
  {
    FirstOpDone(b, first, ops + [op], a, 0);
    FirstOpDone(b, first, ops, a, 0);
    Associates(BlockOf(b, first, a), TradesAfter(b', ops, a), BlockOf(c, op, a));
  }

  /** What it adds to the book's fills, numbers left aside. */
  lemma LastFills(b: Book, ops: seq<Op>, op: Op, a: Symbol)
    requires Good(b)
    ensures BookAfter(b, ops + [op], a) == BookLaws.Step(BookAfter(b, ops, a), op, a, 0).book
    ensures AllFills(TradesAfter(b, ops + [op], a))
         == AllFills(TradesAfter(b, ops, a)) + Unnumbered(BookLaws.Step(BookAfter(b, ops, a), op, a, 0).fills)
  {
    var c := LastOp(b, ops, op, a);
    BlockFills(c, op, a);
    AllFillsJoin(TradesAfter(b, ops, a), BlockOf(c, op, a));
  }

  // ---------------------------------------------------------------- one step

  /** The steps that put nothing into the log and finish nothing leave it following. */
  lemma FollowsStays(s: State, s': State)
    requires AllFollow(s) && s'.live == s.live && s'.queue.order == s.queue.order
    requires forall a {:trigger InFlight(s', a)} :: InFlight(s', a) == InFlight(s, a)
    ensures AllFollow(s')
  {
    forall a
      ensures Follows(s', a)
    {
      assert Follows(s, a) && InFlight(s', a) == InFlight(s, a);
    }
  }

  lemma LockInv(s: State, t: nat, r: Request)
    requires Inv(s) && Enabled(s, Lock(t, r))
    ensures Inv(Next(s, Lock(t, r)))
  {
    var s' := Next(s, Lock(t, r));
    forall u ensures InsideOk(s', u) { assert InsideOk(s, u); }
    FollowsStays(s, s');
    ExecutionStays(s, s');
  }

  lemma LogInv(s: State, t: nat, e: LogEntry)
    requires Inv(s) && Enabled(s, Log(t, e))
    ensures Inv(Next(s, Log(t, e)))
  {
    var s' := Next(s, Log(t, e));
    Q.StepInv(s.queue, Q.Enter(t, e));
    forall u ensures InsideOk(s', u) { assert InsideOk(s, u); }
    FollowsStays(s, s');
    ExecutionStays(s, s');
  }

  lemma LogFillInv(s: State, t: nat, e: LogEntry)
    requires Inv(s) && Enabled(s, LogFill(t, e))
    ensures Inv(Next(s, LogFill(t, e)))
  {
    var s' := Next(s, LogFill(t, e));
    Q.StepInv(s.queue, Q.Enter(t, e));
    forall u ensures InsideOk(s', u) { assert InsideOk(s, u); }
    FollowsStays(s, s');
    ExecutionStays(s, s');
  }

  /** Swapping a node in puts the worker's request, or its fill, behind all others. */
  lemma SwapFollows(s: State, t: nat, n: nat, a: Symbol)
    requires Inv(s) && Enabled(s, InQueue(Q.Swap(t, n)))
    ensures Follows(Next(s, InQueue(Q.Swap(t, n))), a)
  {
    assert InsideOk(s, t) && Follows(s, a);
    EntriesForLast(s.queue.order, s.queue.inside[t].value, a);
    SwapInFlight(s, t, n, a);
  }

  lemma SwapInFlight(s: State, t: nat, n: nat, a: Symbol)
    requires Inv(s) && Enabled(s, InQueue(Q.Swap(t, n)))
    ensures var s' := Next(s, InQueue(Q.Swap(t, n)));
      if t in s.busy && s.busy[t].r.symbol == a then InFlight(s, a) == [] && InFlight(s', a) == [s.busy[t].r.op]
      else InFlight(s', a) == InFlight(s, a)
  {
    assert InsideOk(s, t);
  }

  lemma SwapInv(s: State, t: nat, n: nat)
    requires Inv(s) && Enabled(s, InQueue(Q.Swap(t, n)))
    ensures Inv(Next(s, InQueue(Q.Swap(t, n))))
  {
    var s' := Next(s, InQueue(Q.Swap(t, n)));
    Q.StepInv(s.queue, Q.Swap(t, n));
    forall u ensures InsideOk(s', u) { assert InsideOk(s, u); }
    forall a ensures Follows(s', a) { SwapFollows(s, t, n, a); }
    ExecutionStays(s, s');
  }

  lemma LinkInv(s: State, t: nat)
    requires Inv(s) && Enabled(s, InQueue(Q.Link(t)))
    ensures Inv(Next(s, InQueue(Q.Link(t))))
  {
    var s' := Next(s, InQueue(Q.Link(t)));
    Q.StepInv(s.queue, Q.Link(t));
    forall u ensures InsideOk(s', u) { assert InsideOk(s, u); }
    FollowsStays(s, s');
    ExecutionStays(s, s');
  }

  /** What the writer does, and closing the queue, changes nothing of this. */
  lemma WriterInv(s: State, q: Q.Step<LogEntry>)
    requires Inv(s) && (q == Q.Dequeue || q == Q.Close)
    ensures Enabled(s, InQueue(q)) && Inv(Next(s, InQueue(q)))
  {
    Q.StepInv(s.queue, q);
    WriterChangesNothing(s, q);
    QueueStays(s, Next(s, InQueue(q)));
  }

  lemma WriterChangesNothing(s: State, q: Q.Step<LogEntry>)
    requires Inv(s) && Q.Safe(s.queue, q) && (q == Q.Dequeue || q == Q.Close)
    ensures var queue := Q.Next(s.queue, q); queue.order == s.queue.order && queue.inside == s.queue.inside
  {
  }

  lemma QueueStays(s: State, s': State)
    requires Inv(s) && s' == s.(queue := s'.queue) && Q.Inv(s'.queue)
    requires s'.queue.order == s.queue.order && s'.queue.inside == s.queue.inside
    ensures Inv(s')
  {
    forall u ensures InsideOk(s', u) { assert InsideOk(s, u); }
    FollowsStays(s, s');
    ExecutionStays(s, s');
  }

  lemma BeginInv(s: State, t: nat)
    requires Inv(s) && Enabled(s, Begin(t))
    ensures Inv(Next(s, Begin(t)))
  {
    var s' := Next(s, Begin(t));
    forall u ensures InsideOk(s', u) { assert InsideOk(s, u); }
    FollowsStays(s, s');
    BeginExecution(s, t);
  }

  lemma BeginExecution(s: State, t: nat)
    requires LocksOk(s) && ExecutionOk(s) && Q.Inv(s.queue) && Enabled(s, Begin(t))
    ensures ExecutionOk(Next(s, Begin(t)))
  {
    var s' := Next(s, Begin(t));
    forall a
      ensures BookOk(s', a)
    {
      assert BookOk(s, a) && Done(s', a) == Done(s, a);
    }
    forall u
      ensures MatchingOk(s', u)
    {
      BeginMatches(s, t, u);
    }
  }

  lemma BeginMatches(s: State, t: nat, u: nat)
    requires AllGood(s.x) && MatchingOk(s, u) && Q.Inv(s.queue) && Enabled(s, Begin(t))
    ensures MatchingOk(Next(s, Begin(t)), u)
  {
    assert [] + FillsOn(s.x, s.busy[t].r) == FillsOn(s.x, s.busy[t].r);
  }

  /** A fill that a worker draws a number for is of its symbol and has none yet. */
  lemma TodoFits(s: State, t: nat)
    requires ExecutionOk(s) && t in s.busy && s.busy[t].Matching?
    ensures AllOf(s.busy[t].todo, s.busy[t].r.symbol)
  {
    assert MatchingOk(s, t);
    FillsOnFit(s.x, s.busy[t].r);
    BackFits(s.busy[t].done, s.busy[t].todo, s.busy[t].r.symbol);
  }

  lemma FillsOnFit(x: Exchange, r: Request)
    requires AllGood(x)
    ensures AllOf(FillsOn(x, r), r.symbol)
  {
    BookOfGood(x, r.symbol);
    FillsAreNumbered(BookOf(x, r.symbol), r.op, r.symbol, 0);
  }

  /** The fills are of one symbol, and have no numbers. */
  ghost predicate AllOf(fills: seq<Fill>, a: Symbol) {
    forall i | 0 <= i < |fills| :: fills[i].symbol == a && fills[i].tradeId == 0
  }

  lemma BackFits(done: seq<Fill>, todo: seq<Fill>, a: Symbol)
    requires AllOf(done + todo, a)
    ensures AllOf(todo, a)
  {
    forall i | 0 <= i < |todo|
      ensures todo[i].symbol == a && todo[i].tradeId == 0
    {
      assert todo[i] == (done + todo)[|done| + i];
    }
  }

  lemma DrawDone(s: State, t: nat, a: Symbol)
    requires Inv(s) && Enabled(s, Draw(t))
    ensures var f := s.busy[t].todo[0];
      && f.symbol == s.busy[t].r.symbol
      && Done(Next(s, Draw(t)), a) == Done(s, a) + if f.symbol == a then [f] else []
  {
    TodoFits(s, t);
  }

  lemma DrawBook(s: State, t: nat, a: Symbol)
    requires Inv(s) && Enabled(s, Draw(t))
    ensures BookOk(Next(s, Draw(t)), a)
  {
    var s', f := Next(s, Draw(t)), s.busy[t].todo[0];
    assert BookOk(s, a) && BookOf(s'.x, a) == BookOf(s.x, a);
    DrawDone(s, t, a);
    OneMoreFill(s.draws, f, AllFills(TradesAfter(BookOf(s.start, a), OpsFor(s.live, a), a)), Done(s, a), a);
  }

  lemma OneMoreFill(draws: seq<Fill>, f: Fill, trades: seq<Fill>, done: seq<Fill>, a: Symbol)
    requires FillsFor(draws, a) == trades + done
    ensures FillsFor(draws + [f], a) == trades + (done + if f.symbol == a then [f] else [])
  {
    FillsForJoin(draws, [f], a);
    FirstFillFor(f, [], a);
    assert [f] + [] == [f];
  }

  lemma DrawOwn(s: State, t: nat)
    requires Inv(s) && Enabled(s, Draw(t))
    ensures AllGood(Next(s, Draw(t)).x) && MatchingOk(Next(s, Draw(t)), t)
  {
    var s', p := Next(s, Draw(t)), s.busy[t];
    assert MatchingOk(s, t);
    SameBooksSameFills(s.x, s'.x, p.r);
    OneMoved(p.done, p.todo);
  }

  lemma OneMoved(done: seq<Fill>, todo: seq<Fill>)
    requires todo != []
    ensures (done + [todo[0]]) + todo[1..] == done + todo
  {
  }

  lemma DrawOther(s: State, t: nat, u: nat)
    requires Inv(s) && Enabled(s, Draw(t)) && u != t
    ensures AllGood(Next(s, Draw(t)).x) && MatchingOk(Next(s, Draw(t)), u)
  {
    var s' := Next(s, Draw(t));
    assert MatchingOk(s, u);
    if u in s'.busy && s'.busy[u].Matching? {
      SameBooksSameFills(s.x, s'.x, s.busy[u].r);
    }
  }

  lemma SameBooksSameFills(x: Exchange, y: Exchange, r: Request)
    requires AllGood(x) && AllGood(y) && BookOf(x, r.symbol) == BookOf(y, r.symbol)
    ensures FillsOn(x, r) == FillsOn(y, r)
  {
  }

  lemma DrawInv(s: State, t: nat)
    requires Inv(s) && Enabled(s, Draw(t))
    ensures Inv(Next(s, Draw(t)))
  {
    var s' := Next(s, Draw(t));
    forall u ensures InsideOk(s', u) { assert InsideOk(s, u); }
    FollowsStays(s, s');
    TodoFits(s, t);
    forall a ensures BookOk(s', a) { DrawBook(s, t, a); }
    forall u
      ensures MatchingOk(s', u)
    {
      if u == t {
        DrawOwn(s, t);
      } else {
        DrawOther(s, t, u);
      }
    }
  }

  lemma ExecutedGood(x: Exchange, r: Request)
    requires AllGood(x)
    ensures AllGood(Executed(x, r))
  {
    BookOfGood(x, r.symbol);
    StepGood(BookOf(x, r.symbol), r.op, r.symbol, 0);
  }

  lemma ExecutedElsewhere(x: Exchange, r: Request, a: Symbol)
    requires AllGood(x) && a != r.symbol
    ensures BookOf(Executed(x, r), a) == BookOf(x, a)
  {
  }

  lemma FinishLocks(s: State, t: nat)
    requires Inv(s) && Enabled(s, Finish(t))
    ensures LocksOk(Next(s, Finish(t))) && AllInsideOk(Next(s, Finish(t)))
  {
    var s' := Next(s, Finish(t));
    assert MatchingOk(s, t);
    forall u ensures InsideOk(s', u) { assert InsideOk(s, u); }
  }

  lemma FinishFollows(s: State, t: nat, a: Symbol)
    requires Inv(s) && Enabled(s, Finish(t))
    ensures Follows(Next(s, Finish(t)), a)
  {
    var s', r := Next(s, Finish(t)), s.busy[t].r;
    assert Follows(s, a) && MatchingOk(s, t);
    OpsForLast(s.live, r, a);
    if a == r.symbol {
      assert InFlight(s, a) == [r.op] && InFlight(s', a) == [];
      assert OpsFor(s'.live, a) + [] == OpsFor(s.live, a) + [r.op];
    } else {
      assert InFlight(s', a) == InFlight(s, a) && OpsFor(s'.live, a) == OpsFor(s.live, a);
    }
  }

  /** The book of the request that is finished: its fills have all been drawn. */
  lemma FinishOwnBook(s: State, t: nat)
    requires Inv(s) && Enabled(s, Finish(t))
    ensures BookOk(Next(s, Finish(t)), s.busy[t].r.symbol)
  {
    var r := s.busy[t].r;
    assert BookOk(s, r.symbol);
    FinishDone(s, t);
    OpsForLast(s.live, r, r.symbol);
    LastFills(BookOf(s.start, r.symbol), OpsFor(s.live, r.symbol), r.op, r.symbol);
    BookMoves(s, Next(s, Finish(t)), r, OpsFor(s.live, r.symbol));
  }

  /** A book that goes on by one request, whose fills were the ones in execution. */
  lemma BookMoves(s: State, s': State, r: Request, ops: seq<Op>)
    requires AllGood(s.x) && BookOk(s, r.symbol) && ops == OpsFor(s.live, r.symbol)
    requires s'.start == s.start && s'.draws == s.draws && s'.x == Executed(s.x, r)
    requires OpsFor(s'.live, r.symbol) == ops + [r.op]
    requires Done(s, r.symbol) == FillsOn(s.x, r) && Done(s', r.symbol) == []
    requires var b := BookOf(s.start, r.symbol);
      && BookAfter(b, ops + [r.op], r.symbol) == BookLaws.Step(BookAfter(b, ops, r.symbol), r.op, r.symbol, 0).book
      && AllFills(TradesAfter(b, ops + [r.op], r.symbol))
         == AllFills(TradesAfter(b, ops, r.symbol))
            + Unnumbered(BookLaws.Step(BookAfter(b, ops, r.symbol), r.op, r.symbol, 0).fills)
    ensures BookOk(s', r.symbol)
  {
    BookOfGood(s.x, r.symbol);
    var all := AllFills(TradesAfter(BookOf(s.start, r.symbol), ops + [r.op], r.symbol));
    assert all + [] == all;
  }

  lemma FinishDone(s: State, t: nat)
    requires Inv(s) && Enabled(s, Finish(t))
    ensures var a := s.busy[t].r.symbol; Done(s, a) == FillsOn(s.x, s.busy[t].r) && Done(Next(s, Finish(t)), a) == []
  {
    assert MatchingOk(s, t);
    assert s.busy[t].done + [] == s.busy[t].done;
  }

  lemma FinishOtherBook(s: State, t: nat, a: Symbol)
    requires Inv(s) && Enabled(s, Finish(t)) && a != s.busy[t].r.symbol
    ensures BookOk(Next(s, Finish(t)), a)
  {
    var s' := Next(s, Finish(t));
    assert BookOk(s, a);
    OpsForLast(s.live, s.busy[t].r, a);
    ExecutedElsewhere(s.x, s.busy[t].r, a);
    assert Done(s', a) == Done(s, a);
  }

  lemma FinishMatching(s: State, t: nat, u: nat)
    requires Inv(s) && Enabled(s, Finish(t))
    ensures AllGood(Next(s, Finish(t)).x) && MatchingOk(Next(s, Finish(t)), u)
  {
    var s' := Next(s, Finish(t));
    assert MatchingOk(s, u);
    ExecutedGood(s.x, s.busy[t].r);
    if u in s'.busy && s'.busy[u].Matching? {
      assert s.busy[u].r.symbol != s.busy[t].r.symbol;
      ExecutedElsewhere(s.x, s.busy[t].r, s.busy[u].r.symbol);
      SameBooksSameFills(s.x, s'.x, s.busy[u].r);
    }
  }

  lemma FinishInv(s: State, t: nat)
    requires Inv(s) && Enabled(s, Finish(t))
    ensures Inv(Next(s, Finish(t)))
  {
    var s' := Next(s, Finish(t));
    FinishLocks(s, t);
    ExecutedGood(s.x, s.busy[t].r);
    forall a ensures Follows(s', a) { FinishFollows(s, t, a); }
    forall a
      ensures BookOk(s', a)
    {
      if a == s.busy[t].r.symbol {
        FinishOwnBook(s, t);
      } else {
        FinishOtherBook(s, t, a);
      }
    }
    forall u ensures MatchingOk(s', u) { FinishMatching(s, t, u); }
  }

  lemma StepInv(s: State, step: Step)
    requires Inv(s) && Enabled(s, step)
    ensures Inv(Next(s, step))
  {
    match step
    case Lock(t, r) => LockInv(s, t, r);
    case Log(t, e) => LogInv(s, t, e);
    case LogFill(t, e) => LogFillInv(s, t, e);
    case InQueue(q) =>
      match q {
        case Swap(t, n) => SwapInv(s, t, n);
        case Link(t) => LinkInv(s, t);
        case Enter(_, _) =>
        case _ => WriterInv(s, q);
      }
    case Begin(t) => BeginInv(s, t);
    case Draw(t) => DrawInv(s, t);
    case Finish(t) => FinishInv(s, t);
  }

  // ---------------------------------------------------------------- whole runs

  ghost predicate EnabledRun(s: State, steps: seq<Step>)
    requires Q.Inv(s.queue) && AllGood(s.x)
    decreases |steps|
  {
    steps != [] ==>
      && Enabled(s, steps[0])
      && Q.Inv(Next(s, steps[0]).queue) && AllGood(Next(s, steps[0]).x)
      && EnabledRun(Next(s, steps[0]), steps[1..])
  }

  ghost function Run(s: State, steps: seq<Step>): State
    requires Q.Inv(s.queue) && AllGood(s.x) && EnabledRun(s, steps)
    decreases |steps|
  {
    if steps == [] then s else Run(Next(s, steps[0]), steps[1..])
  }

  lemma {:induction false} RunInv(s: State, steps: seq<Step>) returns (s': State)
    requires Inv(s) && EnabledRun(s, steps)
    ensures s' == Run(s, steps) && Inv(s') && s'.start == s.start
    decreases |steps|
  {
    if steps == [] {
      s' := s;
    } else {
      StepInv(s, steps[0]);
      s' := RunInv(Next(s, steps[0]), steps[1..]);
    }
  }

  /** At every moment of every run, what the writer has taken logs, for each symbol, the first of its
      operations in the order of execution, counting one that is in execution or about to be. */
  lemma WriterHasAPrefix(stub: nat, start: Exchange, steps: seq<Step>, a: Symbol)
    requires AllGood(start) && EnabledRun(Initial(stub, start), steps)
    ensures var s := Run(Initial(stub, start), steps);
      var es, ops := EntriesFor(s.queue.out, a), OpsFor(s.live, a) + InFlight(s, a);
      |es| <= |ops| && LogsAll(es, ops[..|es|], a)
  {
    InitialInv(stub, start);
    var s := RunInv(Initial(stub, start), steps);
    PrefixFollows(s, a);
  }

  lemma PrefixFollows(s: State, a: Symbol)
    requires Inv(s)
    ensures var es, ops := EntriesFor(s.queue.out, a), OpsFor(s.live, a) + InFlight(s, a);
      |es| <= |ops| && LogsAll(es, ops[..|es|], a)
  {
    var taken, rest := s.queue.out, s.queue.order[|s.queue.out|..];
    assert Follows(s, a) && s.queue.order == taken + rest;
    EntriesForJoin(taken, rest, a);
  }

  /** No worker holds a lock or is inside the queue, and the queue looks empty. */
  predicate Quiet(s: State) {
    && s.busy == map[] && s.queue.inside == map[]
    && s.queue.head in s.queue.mem && s.queue.mem[s.queue.head].next.None?
  }

  /** Then what the writer has taken follows what was executed, symbol by symbol, and the draws are of
      the fills that the requests make, in any interleaving of the symbols. */
  lemma QuietFollows(s: State)
    requires Inv(s) && Quiet(s)
    ensures LogFollows(s.queue.out, s.live) && AllGood(s.start) && DrawnBy(s.start, s.live, s.draws)
    ensures s.x.trade == s.start.trade + |s.draws|
    ensures forall a :: BookOf(s.x, a) == BookOf(PerformAll(s.start, s.live), a)
  {
    Q.EmptyMeansDeliveredIff(s.queue);
    assert forall a :: a !in s.held;
    forall a
      ensures LogsAll(EntriesFor(s.queue.out, a), OpsFor(s.live, a), a) && DrawnFor(s.start, s.live, s.draws, a)
      ensures BookOf(s.x, a) == BookOf(PerformAll(s.start, s.live), a)
    {
      QuietSymbol(s, a);
    }
  }

  lemma QuietSymbol(s: State, a: Symbol)
    requires Inv(s) && a !in s.held && s.queue.out == s.queue.order
    ensures LogsAll(EntriesFor(s.queue.out, a), OpsFor(s.live, a), a) && DrawnFor(s.start, s.live, s.draws, a)
    ensures BookOf(s.x, a) == BookOf(PerformAll(s.start, s.live), a)
  {
    assert Follows(s, a) && BookOk(s, a);
    assert OpsFor(s.live, a) + [] == OpsFor(s.live, a);
    SymbolsAreIndependent(s.start, s.live, a);
    var trades := AllFills(TradesAfter(BookOf(s.start, a), OpsFor(s.live, a), a));
    assert trades + [] == trades;
  }

  /**
   * Once an exchange that was started from its log is quiet, a file of everything logged before and
   * since gives every book back as it is, up to the clients of its orders, and exactly if they have
   * none.
   */
  lemma QuietLogRecovers(stub: nat, earlier: seq<LogEntry>, steps: seq<Step>, records: seq<seq<Byte>>,
                         torn: seq<Byte>, a: Symbol)
    requires EnabledRun(Initial(stub, PerformAll(OPENING, Requests(AllAsRead(earlier)))), steps)
    requires var s := Run(Initial(stub, PerformAll(OPENING, Requests(AllAsRead(earlier)))), steps);
      && Quiet(s) && AllSymbolsFit(s.queue.out)
      && Records(earlier + s.queue.out, records) && |torn| < RECORD_SIZE
    ensures var s := Run(Initial(stub, PerformAll(OPENING, Requests(AllAsRead(earlier)))), steps);
      var now, was := BookOf(Replay(File(records) + torn), a), BookOf(s.x, a);
      AlikeBooks(now, was) && NoClients(now) && (now == was <==> NoClients(was))
  {
    var before := Requests(AllAsRead(earlier));
    var start := PerformAll(OPENING, before);
    InitialInv(stub, start);
    var s := RunInv(Initial(stub, start), steps);
    QuietFollows(s);
    LogRoundTrip(earlier + s.queue.out, records, torn);
    ReadJoin(earlier, s.queue.out);
    var _ := PerformedInTurn(OPENING, before, Requests(AllAsRead(s.queue.out)));
    AllReadClientless(earlier);
    RunNoClients(OPENING, before, a);
    ContinuedIsExact(start, s.live, s.queue.out, a);
  }

  /**
   * And it gives the fills since the start their trade ids back if and only if replaying them one
   * request at a time makes them in an order in which the symbols come, fill by fill, as they did
   * when the workers drew.
   */
  lemma QuietTradeIdsComeBackIff(stub: nat, start: Exchange, steps: seq<Step>)
    requires AllGood(start) && EnabledRun(Initial(stub, start), steps)
    requires var s := Run(Initial(stub, start), steps); Quiet(s) && AllSymbolsFit(s.queue.out)
    ensures var s := Run(Initial(stub, start), steps);
      var rs, drawn := Requests(AllAsRead(s.queue.out)), s.draws;
      Numbered(drawn, start.trade) == FillsOf(start, rs) <==> FillSymbols(drawn) == FillSymbols(DrawsOf(start, rs))
  {
    InitialInv(stub, start);
    var s := RunInv(Initial(stub, start), steps);
    QuietFollows(s);
    ContinuedTradeIdsIff(start, s.live, s.draws, s.queue.out);
  }
}
