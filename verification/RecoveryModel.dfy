/**
 * Recovery: an exchange after its requests have been logged, read back and replayed.  Requests for
 * one symbol are logged in the order in which its book executes them, because both happen under
 * the book's lock, as the worker model shows; between symbols any order is possible.
 */
module RecoveryModel {
  import opened Bytes
  import opened ExchangeTypes
  import opened BookModel
  import opened BookLaws
  import opened WalModel
  import opened ExchangeModel
  import opened DrawModel

  // ---------------------------------------------------------------- replay

  /** What replaying an entry asks of the exchange. */
  function RequestOf(e: Option<LogEntry>): Option<Request> {
    match e
    case Some(OrderEntry(o)) => Some(Request(o.symbol, SubmitOp(o)))
    case Some(CancelEntry(id, symbol, _)) => Some(Request(symbol, CancelOp(id)))
    case Some(ModifyEntry(r)) => Some(Request(r.symbol, ModifyOp(r)))
    case _ => None
  }

  function Requests(es: seq<Option<LogEntry>>): seq<Request> {
    if es == [] then []
    else
      var r := RequestOf(es[0]);
      (if r.Some? then [r.value] else []) + Requests(es[1..])
  }

  /** ReplayEngine::replay: every request in the file, on an exchange that has just been opened. */
  function Replay(file: seq<Byte>): Exchange {
    PerformAll(OPENING, Requests(ReadAll(file)))
  }

  /** The replay engine's loop over the file, record by record. */
  method ReplayLog(file: seq<Byte>) returns (x: Exchange)
    ensures x == Replay(file)
  {
    x := OPENING;
    var rest := file;
    while |rest| >= RECORD_SIZE
      invariant AllGood(x)
      invariant PerformAll(x, Requests(ReadAll(rest))) == Replay(file)
    {
      ReplayTurn(x, rest);
      x := ReplayOne(x, rest[..RECORD_SIZE]);
      rest := rest[RECORD_SIZE..];
    }
    assert ReadAll(rest) == [];
  }

  /** What one record does: the request in it, if it is one. */
  function ReplayOne(x: Exchange, record: seq<Byte>): (x': Exchange)
    requires AllGood(x) && |record| == RECORD_SIZE
    ensures AllGood(x')
  {
    var r := RequestOf(ReadRecord(record));
    if r.Some? then Perform(x, r.value) else x
  }

  lemma ReplayTurn(x: Exchange, file: seq<Byte>)
    requires AllGood(x) && |file| >= RECORD_SIZE
    ensures PerformAll(x, Requests(ReadAll(file)))
         == PerformAll(ReplayOne(x, file[..RECORD_SIZE]), Requests(ReadAll(file[RECORD_SIZE..])))
  {
    FirstRequest(file);
    var r, rs := RequestOf(ReadRecord(file[..RECORD_SIZE])), Requests(ReadAll(file[RECORD_SIZE..]));
    if r.Some? {
      assert ([r.value] + rs)[1..] == rs;
    } else {
      assert [] + rs == rs;
    }
  }

  lemma FirstRequest(file: seq<Byte>)
    requires |file| >= RECORD_SIZE
    ensures var r := RequestOf(ReadRecord(file[..RECORD_SIZE]));
      Requests(ReadAll(file)) == (if r.Some? then [r.value] else []) + Requests(ReadAll(file[RECORD_SIZE..]))
  {
    var e, es := ReadRecord(file[..RECORD_SIZE]), ReadAll(file[RECORD_SIZE..]);
    assert ReadAll(file) == [e] + es && ([e] + es)[1..] == es;
  }

  /** The entry a worker logs for a request.  An order arrives from the gateway with all of its
      quantity remaining. */
  predicate Logs(e: LogEntry, r: Request) {
    match r.op
    case SubmitOp(o) => e == OrderEntry(o) && o.symbol == r.symbol && o.remaining == o.quantity
    case CancelOp(id) => e.CancelEntry? && e.orderId == id && e.symbol == r.symbol
    case ModifyOp(m) => e == ModifyEntry(m) && m.symbol == r.symbol
  }

  function SymbolOf(e: LogEntry): Symbol {
    match e
    case OrderEntry(o) => o.symbol
    case CancelEntry(_, symbol, _) => symbol
    case ModifyEntry(r) => r.symbol
    case FillEntry(f, _) => f.symbol
  }

  /** The requests in a log for one symbol; the fills that workers log in between do not count. */
  function EntriesFor(entries: seq<LogEntry>, s: Symbol): seq<LogEntry> {
    if entries == [] then []
    else
      (if !entries[0].FillEntry? && SymbolOf(entries[0]) == s then [entries[0]] else []) + EntriesFor(entries[1..], s)
  }

  lemma FirstEntry(e: LogEntry, es: seq<LogEntry>, s: Symbol)
    ensures EntriesFor([e] + es, s) == (if !e.FillEntry? && SymbolOf(e) == s then [e] else []) + EntriesFor(es, s)
  {
    assert ([e] + es)[1..] == es;
  }

  /** For every symbol, the log has the requests in the order in which its book executed them. */
  ghost predicate LogFollows(entries: seq<LogEntry>, live: seq<Request>) {
    forall s {:trigger OpsFor(live, s)} :: LogsAll(EntriesFor(entries, s), OpsFor(live, s), s)
  }

  ghost predicate LogsAll(es: seq<LogEntry>, ops: seq<Op>, s: Symbol) {
    |es| == |ops| && forall i | 0 <= i < |es| :: Logs(es[i], Request(s, ops[i]))
  }

  predicate SymbolFits(s: Symbol) { |s| < 8 && 0 !in s }

  ghost predicate AllSymbolsFit(entries: seq<LogEntry>) {
    forall i | 0 <= i < |entries| :: SymbolFits(SymbolOf(entries[i]))
  }

  /** The operation an entry becomes when it is read back. */
  function ReadOp(e: LogEntry): Op
    requires !e.FillEntry?
  {
    RequestOf(AsRead(e)).value.op
  }

  lemma ReadKeepsSymbol(e: LogEntry)
    requires SymbolFits(SymbolOf(e)) && !e.FillEntry?
    ensures RequestOf(AsRead(e)) == Some(Request(SymbolOf(e), ReadOp(e)))
  {
    KeptIff(SymbolOf(e), 8);
  }

  lemma ReadIsAlike(e: LogEntry, r: Request)
    requires Logs(e, r) && SymbolFits(r.symbol)
    ensures !e.FillEntry? && AlikeOps(r.op, ReadOp(e)) && Clientless(ReadOp(e))
  {
    KeptIff(r.symbol, 8);
  }

  function ReadOps(es: seq<LogEntry>): seq<Op>
    requires forall e | e in es :: !e.FillEntry?
  {
    if es == [] then [] else [ReadOp(es[0])] + ReadOps(es[1..])
  }

  lemma {:induction false} ReadOpsAt(es: seq<LogEntry>, i: nat)
    requires (forall e | e in es :: !e.FillEntry?) && i < |es|
    ensures |ReadOps(es)| == |es| && ReadOps(es)[i] == ReadOp(es[i])
  {
    if |es| > 1 {
      ReadOpsAt(es[1..], if i > 0 then i - 1 else 0);
    }
  }

  /** Reading a log back and picking out a symbol is picking out the symbol and reading it back. */
  lemma {:induction false} ReadThenPick(entries: seq<LogEntry>, s: Symbol)
    requires AllSymbolsFit(entries)
    ensures forall e | e in EntriesFor(entries, s) :: !e.FillEntry?
    ensures OpsFor(Requests(AllAsRead(entries)), s) == ReadOps(EntriesFor(entries, s))
  {
    if entries != [] {
      var e, rest, es := entries[0], Requests(AllAsRead(entries[1..])), EntriesFor(entries[1..], s);
      ReadThenPick(entries[1..], s);
      assert AllAsRead(entries)[1..] == AllAsRead(entries[1..]);
      if e.FillEntry? {
        assert Requests(AllAsRead(entries)) == rest && EntriesFor(entries, s) == es;
      } else {
        ReadKeepsSymbol(e);
        var all := [Request(SymbolOf(e), ReadOp(e))] + rest;
        assert Requests(AllAsRead(entries)) == all && all[1..] == rest;
        if SymbolOf(e) == s {
          assert EntriesFor(entries, s) == [e] + es && ([e] + es)[1..] == es;
        } else {
          assert EntriesFor(entries, s) == es;
        }
      }
    }
  }

  lemma ReadBackAlike(entries: seq<LogEntry>, live: seq<Request>, s: Symbol)
    requires AllSymbolsFit(entries) && LogFollows(entries, live)
    ensures AlikeRuns(OpsFor(live, s), OpsFor(Requests(AllAsRead(entries)), s))
  {
    var es, ops := EntriesFor(entries, s), OpsFor(live, s);
    ReadThenPick(entries, s);
    assert LogsAll(es, ops, s);
    PickedFit(entries, s);
    if es == [] {
      assert ReadOps(es) == [];
    } else {
      ReadOpsAt(es, 0);
    }
    forall i | 0 <= i < |ops|
      ensures AlikeOps(ops[i], ReadOps(es)[i])
    {
      ReadOpsAt(es, i);
      ReadIsAlike(es[i], Request(s, ops[i]));
    }
  }

  lemma {:induction false} PickedFit(entries: seq<LogEntry>, s: Symbol)
    requires AllSymbolsFit(entries)
    ensures EntriesFor(entries, s) != [] ==> SymbolFits(s)
  {
    if entries != [] {
      PickedFit(entries[1..], s);
    }
  }

  lemma {:induction false} AllReadClientless(entries: seq<LogEntry>)
    ensures forall i | 0 <= i < |Requests(AllAsRead(entries))| :: Clientless(Requests(AllAsRead(entries))[i].op)
  {
    if entries != [] {
      AllReadClientless(entries[1..]);
      assert AllAsRead(entries)[1..] == AllAsRead(entries[1..]);
    }
  }

  lemma ReadBackForEach(entries: seq<LogEntry>, live: seq<Request>)
    requires AllSymbolsFit(entries) && LogFollows(entries, live)
    ensures SameRequestsForEach(live, Requests(AllAsRead(entries)))
  {
    forall s
      ensures AlikeRuns(OpsFor(live, s), OpsFor(Requests(AllAsRead(entries)), s))
    {
      ReadBackAlike(entries, live, s);
    }
  }

  /** From any exchange on whose book of a symbol knows no clients: going on with what is read back of
      a log brings the book to where the requests themselves brought it, up to clients. */
  lemma ContinuedIsExact(x: Exchange, live: seq<Request>, entries: seq<LogEntry>, s: Symbol)
    requires AllGood(x) && NoClients(BookOf(x, s)) && LogFollows(entries, live) && AllSymbolsFit(entries)
    ensures var was, now := BookOf(PerformAll(x, live), s), BookOf(PerformAll(x, Requests(AllAsRead(entries))), s);
      AlikeBooks(now, was) && NoClients(now) && (now == was <==> NoClients(was))
  {
    var again, b := Requests(AllAsRead(entries)), BookOf(x, s);
    SymbolsAreIndependent(x, live, s);
    SymbolsAreIndependent(x, again, s);
    ReadBackAlike(entries, live, s);
    AlikeWithItself([], b);
    BooksAfterAlike(b, b, OpsFor(live, s), OpsFor(again, s), s);
    AlikeOtherWay(BookOf(PerformAll(x, live), s), BookOf(PerformAll(x, again), s));
    AllReadClientless(entries);
    RunNoClients(x, again, s);
    SameIffNoClients(BookOf(PerformAll(x, again), s), BookOf(PerformAll(x, live), s));
  }

  /**
   * Recovery.  However the workers interleaved the symbols, whatever fills they logged in between
   * and whatever the records' unused bytes hold: if the log has each symbol's requests in the order
   * its book executed them, and the symbols fit their buffers, replaying the file brings every
   * symbol's book to the state it had after those requests, up to the clients of its orders, which
   * are not in the log.  A record torn off at the end of the file makes no difference.  The
   * recovered book is identical exactly when no resting order of the book had a client.
   */
  lemma RecoveryIsExact(live: seq<Request>, entries: seq<LogEntry>, records: seq<seq<Byte>>, torn: seq<Byte>, s: Symbol)
    requires LogFollows(entries, live) && AllSymbolsFit(entries)
    requires Records(entries, records) && |torn| < RECORD_SIZE
    ensures var was, now := BookOf(PerformAll(OPENING, live), s), BookOf(Replay(File(records) + torn), s);
      AlikeBooks(now, was) && NoClients(now) && (now == was <==> NoClients(was))
  {
    LogRoundTrip(entries, records, torn);
    ContinuedIsExact(OPENING, live, entries, s);
  }

  lemma AlikeOtherWay(a: Book, b: Book)
    requires AlikeBooks(a, b)
    ensures AlikeBooks(b, a)
  {
  }

  // ---------------------------------------------------------------- trade ids

  /** From any exchange on: going on with what is read back makes every symbol's trades again but for
      their numbers, and gives every fill the number it had drawn if and only if it makes the fills in
      an order in which their symbols come as they did in the draws. */
  lemma ContinuedTradeIdsIff(x: Exchange, live: seq<Request>, draws: seq<Fill>, entries: seq<LogEntry>)
    requires AllGood(x) && DrawnBy(x, live, draws) && LogFollows(entries, live) && AllSymbolsFit(entries)
    ensures var again := Requests(AllAsRead(entries));
      && (forall s :: BlocksFor(Trades(x, again), s) == BlocksFor(Trades(x, live), s))
      && (Numbered(draws, x.trade) == FillsOf(x, again) <==> FillSymbols(draws) == FillSymbols(DrawsOf(x, again)))
  {
    var again := Requests(AllAsRead(entries));
    ReadBackForEach(entries, live);
    AlikeToItself(x);
    SameTradesForEach(x, x, live, again);
    DrawsRepeatIff(x, x, live, draws, again);
  }

  lemma AlikeToItself(x: Exchange)
    ensures AlikeExchanges(x, x)
  {
    forall s
      ensures AlikeBooks(BookOf(x, s), BookOf(x, s))
    {
      AlikeWithItself([], BookOf(x, s));
    }
  }

  /**
   * The trade ids of a recovery.  Under the conditions of recovery, and however the workers drew the
   * numbers of their fills between each other's: all fills come back under the numbers they had drawn
   * if and only if replay makes them in an order in which the symbols come, fill by fill, as they did
   * in the draws.
   */
  lemma TradeIdsComeBackIff(live: seq<Request>, draws: seq<Fill>, entries: seq<LogEntry>, records: seq<seq<Byte>>,
                            torn: seq<Byte>)
    requires DrawnBy(OPENING, live, draws) && LogFollows(entries, live) && AllSymbolsFit(entries)
    requires Records(entries, records) && |torn| < RECORD_SIZE
    ensures var again := Requests(ReadAll(File(records) + torn));
      && (forall s :: BlocksFor(Trades(OPENING, again), s) == BlocksFor(Trades(OPENING, live), s))
      && (Numbered(draws, 1) == FillsOf(OPENING, again)
          <==> FillSymbols(draws) == FillSymbols(DrawsOf(OPENING, again)))
  {
    LogRoundTrip(entries, records, torn);
    ContinuedTradeIdsIff(OPENING, live, draws, entries);
  }

  /** If requests were executed one at a time, it is enough to look at the order of those that trade. */
  lemma OneAtATimeIdsComeBackIff(live: seq<Request>, entries: seq<LogEntry>, records: seq<seq<Byte>>, torn: seq<Byte>)
    requires LogFollows(entries, live) && AllSymbolsFit(entries)
    requires Records(entries, records) && |torn| < RECORD_SIZE
    ensures var again := Requests(ReadAll(File(records) + torn));
      FillsOf(OPENING, again) == FillsOf(OPENING, live) <==> TradingOrder(OPENING, again) == TradingOrder(OPENING, live)
  {
    LogRoundTrip(entries, records, torn);
    ReadBackForEach(entries, live);
    AlikeToItself(OPENING);
    TradeIdsRepeatIff(OPENING, OPENING, live, Requests(AllAsRead(entries)));
  }

  /** The whole log, not just each symbol's part of it, is in the order of execution. */
  predicate LoggedInOrder(entries: seq<LogEntry>, live: seq<Request>) {
    if entries == [] then live == []
    else if entries[0].FillEntry? then LoggedInOrder(entries[1..], live)
    else live != [] && Logs(entries[0], live[0]) && LoggedInOrder(entries[1..], live[1..])
  }

  lemma {:induction false} InOrderAlike(entries: seq<LogEntry>, live: seq<Request>)
    requires LoggedInOrder(entries, live) && AllSymbolsFit(entries)
    ensures AlikeRequests(Requests(AllAsRead(entries)), live)
  {
    if entries != [] {
      var e := entries[0];
      assert AllAsRead(entries)[1..] == AllAsRead(entries[1..]);
      if e.FillEntry? {
        InOrderAlike(entries[1..], live);
        assert Requests(AllAsRead(entries)) == Requests(AllAsRead(entries[1..]));
      } else {
        InOrderAlike(entries[1..], live[1..]);
        ReadKeepsSymbol(e);
        ReadIsAlike(e, live[0]);
      }
    }
  }

  /** If requests were executed one after the other across all symbols, replaying the log makes
      every fill again under its original trade id. */
  lemma ReplayRepeatsTradeIds(live: seq<Request>, entries: seq<LogEntry>)
    requires LoggedInOrder(entries, live) && AllSymbolsFit(entries)
    ensures FillsOf(OPENING, Requests(AllAsRead(entries))) == FillsOf(OPENING, live)
  {
    InOrderAlike(entries, live);
    FillsRepeat(OPENING, OPENING, Requests(AllAsRead(entries)), live);
  }

  // ---------------------------------------------------------------- any number of restarts

  /** What an exchange executed between a start and the next, and what it logged of it. */
  datatype Session = Session(live: seq<Request>, entries: seq<LogEntry>)

  /** Everything in the log, which every start appends to. */
  function LogOf(ss: seq<Session>): seq<LogEntry> {
    if ss == [] then [] else LogOf(ss[..|ss| - 1]) + ss[|ss| - 1].entries
  }

  function LiveOf(ss: seq<Session>): seq<Request> {
    if ss == [] then [] else LiveOf(ss[..|ss| - 1]) + ss[|ss| - 1].live
  }

  /** The exchange as it starts after these sessions: what has been logged is replayed. */
  function Started(ss: seq<Session>): Exchange {
    PerformAll(OPENING, Requests(AllAsRead(LogOf(ss))))
  }

  /** The exchange at the end of the last session. */
  function AtTheEnd(ss: seq<Session>): Exchange {
    if ss == [] then OPENING else PerformAll(Started(ss[..|ss| - 1]), ss[|ss| - 1].live)
  }

  ghost predicate AllLogged(ss: seq<Session>) {
    forall i | 0 <= i < |ss| :: LogFollows(ss[i].entries, ss[i].live) && AllSymbolsFit(ss[i].entries)
  }

  lemma OneMoreEntry(e: LogEntry, es: seq<LogEntry>, fs: seq<LogEntry>, s: Symbol)
    requires EntriesFor(es + fs, s) == EntriesFor(es, s) + EntriesFor(fs, s)
    ensures EntriesFor([e] + (es + fs), s) == EntriesFor([e] + es, s) + EntriesFor(fs, s)
  {
    FirstEntry(e, es + fs, s);
    FirstEntry(e, es, s);
    Associates(if !e.FillEntry? && SymbolOf(e) == s then [e] else [], EntriesFor(es, s), EntriesFor(fs, s));
  }

  lemma {:induction false} EntriesForJoin(es: seq<LogEntry>, fs: seq<LogEntry>, s: Symbol)
    ensures EntriesFor(es + fs, s) == EntriesFor(es, s) + EntriesFor(fs, s)
  {
    if es == [] {
      assert es + fs == fs;
    } else {
      EntriesForJoin(es[1..], fs, s);
      OneMoreEntry(es[0], es[1..], fs, s);
      assert es == [es[0]] + es[1..] && es + fs == [es[0]] + (es[1..] + fs);
    }
  }

  lemma OneMoreRequest(r: Request, rs: seq<Request>, qs: seq<Request>, s: Symbol)
    requires OpsFor(rs + qs, s) == OpsFor(rs, s) + OpsFor(qs, s)
    ensures OpsFor([r] + (rs + qs), s) == OpsFor([r] + rs, s) + OpsFor(qs, s)
  {
    FirstOpFor(r, rs + qs, s);
    FirstOpFor(r, rs, s);
    Associates(if r.symbol == s then [r.op] else [], OpsFor(rs, s), OpsFor(qs, s));
  }

  lemma {:induction false} OpsForJoin(rs: seq<Request>, qs: seq<Request>, s: Symbol)
    ensures OpsFor(rs + qs, s) == OpsFor(rs, s) + OpsFor(qs, s)
  {
    if rs == [] {
      assert rs + qs == qs;
    } else {
      OpsForJoin(rs[1..], qs, s);
      OneMoreRequest(rs[0], rs[1..], qs, s);
      assert rs == [rs[0]] + rs[1..] && rs + qs == [rs[0]] + (rs[1..] + qs);
    }
  }

  lemma OneMoreRead(e: LogEntry, es: seq<LogEntry>, fs: seq<LogEntry>)
    requires Requests(AllAsRead(es + fs)) == Requests(AllAsRead(es)) + Requests(AllAsRead(fs))
    ensures Requests(AllAsRead([e] + (es + fs))) == Requests(AllAsRead([e] + es)) + Requests(AllAsRead(fs))
  {
    FirstAsRead(e, es + fs);
    FirstAsRead(e, es);
    var r := RequestOf(AsRead(e));
    Associates(if r.Some? then [r.value] else [], Requests(AllAsRead(es)), Requests(AllAsRead(fs)));
  }

  lemma {:induction false} ReadJoin(es: seq<LogEntry>, fs: seq<LogEntry>)
    ensures Requests(AllAsRead(es + fs)) == Requests(AllAsRead(es)) + Requests(AllAsRead(fs))
  {
    if es == [] {
      assert es + fs == fs;
    } else {
      ReadJoin(es[1..], fs);
      OneMoreRead(es[0], es[1..], fs);
      assert es == [es[0]] + es[1..] && es + fs == [es[0]] + (es[1..] + fs);
    }
  }

  lemma FirstAsRead(e: LogEntry, es: seq<LogEntry>)
    ensures var r := RequestOf(AsRead(e));
      Requests(AllAsRead([e] + es)) == (if r.Some? then [r.value] else []) + Requests(AllAsRead(es))
  {
    assert ([e] + es)[1..] == es;
    assert AllAsRead([e] + es)[1..] == AllAsRead(es);
  }

  lemma FirstPerformed(x: Exchange, r: Request, rs: seq<Request>, qs: seq<Request>) returns (x': Exchange)
    requires AllGood(x)
    ensures AllGood(x') && PerformAll(x, [r] + rs) == PerformAll(x', rs)
    ensures PerformAll(x, [r] + (rs + qs)) == PerformAll(x', rs + qs)
  {
    x' := Perform(x, r);
    assert ([r] + rs)[1..] == rs && ([r] + (rs + qs))[1..] == rs + qs;
  }

  /** y is where a run leads; going on from there is the longer run. */
  lemma {:induction false} PerformedInTurn(x: Exchange, rs: seq<Request>, qs: seq<Request>) returns (y: Exchange)
    requires AllGood(x)
    ensures AllGood(y) && y == PerformAll(x, rs) && PerformAll(x, rs + qs) == PerformAll(y, qs)
    decreases |rs|
  {
    if rs == [] {
      y := x;
      assert rs + qs == qs;
    } else {
      assert rs == [rs[0]] + rs[1..] && rs + qs == [rs[0]] + (rs[1..] + qs);
      var x' := FirstPerformed(x, rs[0], rs[1..], qs);
      y := PerformedInTurn(x', rs[1..], qs);
    }
  }

  lemma FollowJoin(es: seq<LogEntry>, live: seq<Request>, fs: seq<LogEntry>, more: seq<Request>)
    requires LogFollows(es, live) && AllSymbolsFit(es) && LogFollows(fs, more) && AllSymbolsFit(fs)
    ensures LogFollows(es + fs, live + more) && AllSymbolsFit(es + fs)
  {
    forall s
      ensures LogsAll(EntriesFor(es + fs, s), OpsFor(live + more, s), s)
    {
      EntriesForJoin(es, fs, s);
      OpsForJoin(live, more, s);
      assert LogsAll(EntriesFor(es, s), OpsFor(live, s), s) && LogsAll(EntriesFor(fs, s), OpsFor(more, s), s);
    }
  }

  lemma {:induction false} AllLogsFollow(ss: seq<Session>)
    requires AllLogged(ss)
    ensures LogFollows(LogOf(ss), LiveOf(ss)) && AllSymbolsFit(LogOf(ss))
  {
    if ss != [] {
      var init, last := ss[..|ss| - 1], ss[|ss| - 1];
      AllLogsFollow(init);
      FollowJoin(LogOf(init), LiveOf(init), last.entries, last.live);
    }
  }

  /** A start knows no clients. */
  lemma StartedNoClients(ss: seq<Session>, s: Symbol)
    ensures NoClients(BookOf(Started(ss), s))
  {
    AllReadClientless(LogOf(ss));
    RunNoClients(OPENING, Requests(AllAsRead(LogOf(ss))), s);
  }

  /**
   * Recovery over any number of restarts, each of which replays all that was logged before and goes
   * on from there: replaying the whole file brings every book to the state it had at the end of the
   * last session, up to clients; and that is also, up to clients, the state to which all requests of
   * all sessions would have brought it without any restart.
   */
  lemma RecoveryOverRestarts(ss: seq<Session>, records: seq<seq<Byte>>, torn: seq<Byte>, s: Symbol)
    requires ss != [] && AllLogged(ss) && Records(LogOf(ss), records) && |torn| < RECORD_SIZE
    ensures var was, now := BookOf(AtTheEnd(ss), s), BookOf(Replay(File(records) + torn), s);
      && AlikeBooks(now, was) && NoClients(now) && (now == was <==> NoClients(was))
      && AlikeBooks(now, BookOf(PerformAll(OPENING, LiveOf(ss)), s))
  {
    var init, last := ss[..|ss| - 1], ss[|ss| - 1];
    LogRoundTrip(LogOf(ss), records, torn);
    ReadJoin(LogOf(init), last.entries);
    var _ := PerformedInTurn(OPENING, Requests(AllAsRead(LogOf(init))), Requests(AllAsRead(last.entries)));
    StartedNoClients(init, s);
    ContinuedIsExact(Started(init), last.live, last.entries, s);
    AllLogsFollow(ss);
    ContinuedIsExact(OPENING, LiveOf(ss), LogOf(ss), s);
  }
}
