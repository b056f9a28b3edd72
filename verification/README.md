# A verified model of the exchange and of the buffers and handlers it runs on

The repository is a stock exchange: orders come in over the network, pass a risk check, are matched
in one order book per symbol, are logged ahead, and can be replayed after a restart. It carries the
Asio headers it is built on. This project models, in Dafny 4.11, the parts whose behaviour is
hardest to see from the code, and proves what they promise for every input, every run and every
interleaving. `dafny verify dfyconfig.toml` checks all of it.

| component | files |
|---|---|
| order book, matching, price levels | `ExchangeTypes`, `MatchingModel`, `BookModel`, `BookLaws`, `BookOutcomes`, `LevelModel`, `OrderBook`, `RiskCheck` |
| write-ahead log, replay, many books | `WalModel`, `ExchangeModel`, `DrawModel`, `RecoveryModel`, `RecoveryCases` |
| the lock-free queue under the log, and the workers that fill it | `MpscQueueModel`, `WorkerModel` |
| `asio::basic_streambuf` | `StreambufModel`, `Streambuf` |
| `asio::basic_socket_streambuf` | `SocketModel`, `SocketStreambuf` |
| `asio::any_completion_handler` | `HandlerMemoryModel`, `HandlerMemory`, `HandlerOwnershipModel`, `HandlerOwnership` |
| bytes, words, integer widths | `Bytes` |

A `...Model` file has the state of a component as a value, the meaning of each operation on that
value, and the theorems about single operations and whole runs. Its partner is the component in the
form the source gives it: a class with arrays, positions, maps and loops, each method of which is
proved to change the state exactly as the model says. The order book is the clearest case: the model
is two sorted priority queues and a walk down one of them; the class has price levels, lists, an
index into the lists and nested loops, and is proved to be that walk.

What the environment decides is a parameter of every theorem: what a socket answers and when, where
an allocator and a vector put their blocks, which producer of a queue moves next, how workers
interleave symbols and, fill by fill, the trade ids they draw, and what unused bytes of a record hold.

## Where the code and its description differ

Each of these has its exact condition, and an input on which the promise fails.

- README.md:84 promises identical books after a replay. The log has no client ids, so a recovered
  book is identical exactly when its resting orders had none; everything else is recovered
  (`RecoveryModel.RecoveryIsExact`, `RecoveryCases.ClientIsLost`). It also promises the original
  trade ids. Workers draw them fill by fill, between each other's if their books differ. They come
  back exactly when replay, which executes one request at a time, makes the fills in an order in
  which the symbols come, fill by fill, as they did in the draws
  (`RecoveryModel.TradeIdsComeBackIff`). Nothing sees to that: symbols may trade in one order and be
  logged in the other (`RecoveryCases.SwappedPurchasesRenumber`), and a log in the very order of
  execution does not help when draws overlap (`OverlappingDrawsRenumber`). And the log is opened for appending: what is written
  after a record was torn off is misread (`WalModel.AppendedIsReadIff`).
- README.md:80 says the resting order dictates the execution price. Timestamps decide, and at equal
  timestamps an incoming buy pays its own price (`MatchingModel.RestingOrderSetsPriceIff`,
  `EqualTimestampsFavourTheBuyersPrice`).
- A modification is not put to the risk check, so what rests keeps the limits exactly as long as
  modifications are harmless (`RiskChecks.GatedRunKeepsLimitsIff`, `ModificationPassesLimits`), and a
  modification to quantity zero removes the order without any report
  (`BookLaws.ModificationIsAnsweredIff`). The check forgets the ids it has seen when the exchange is
  restarted, although the orders come back (`RiskChecks.ForgottenIdsHideOrders`).
- `basic_streambuf::prepare` that throws has already moved the readable bytes within the array
  (`StreambufModel.ThrowingPrepareIsHarmless`, `ThrowingPrepareScrambles`).
- `basic_streambuf::commit` and `consume` pass their count through a 32-bit int; they keep their
  promise exactly for counts up to INT_MAX (`StreambufModel.CommitIsExact`, `HugeCommitFails`).
  `consume` also compares a sum of addresses that can wrap, with a buffer of any size; where it
  does, the promise is broken but for one chance (`StreambufModel.ConsumeIsExact`,
  `WrappingConsumeFails`). What holds over runs holds exactly without such steps
  (`StreambufModel.StepKeepsValid`).
- `basic_socket_streambuf::close` reports success although its flush failed
  (`SocketModel.CloseDeliversIff`, `CloseLoses`), and a failed flush that is retried sends again what
  it had sent (`SocketModel.RetryRepeatsThePrefix`, `FlushRepeats`).
- `any_completion_handler_impl::allocate` computes its size in 64 bits; its layout is right exactly
  when that does not wrap, and its own check notices only one of the two ways it can
  (`HandlerMemoryModel.GeometryIffNoWrap`, `LargestRequestLeaks`, `WrappedLengthGoesUnnoticed`).

## Model

| member | source | states |
|---|---|---|
| MatchingModel.MatchTakesPrefix | src/engine/order_book.cpp:22-49 | Price-time priority: the fills are against the first orders of the queue, one each, in order; every order hit but the last is filled completely before the next is touched, and a partly filled last one means the incoming order is done; fills name both parties, stay inside both limits, and are at the resting price if that order is older. Their numbers are consecutive when no other worker draws meanwhile. |
| MatchingModel.MatchConserves | src/engine/order_book.cpp:22-49 | Matching takes the same quantity from the incoming order and from the resting side, which is the sum of the fills, and changes nothing else of the incoming order. |
| MatchingModel.MatchIsExhaustive | src/engine/order_book.cpp:25-30 | Matching stops only when the order is done, nobody is left, or the best price is worse than the limit of a limit order; a market order goes on. |
| MatchingModel.MatchLeavesTheRest | src/engine/order_book.cpp:22-51 | What matching leaves of an order is what it asks for beyond the total it can reach, which the next two rows give in prices and volumes. |
| MatchingModel.MarketReachesAll | src/engine/order_book.cpp:25-30 | A market order can reach all that rests on the other side, whatever its price field says. |
| MatchingModel.LimitReachesWithin | src/engine/order_book.cpp:25-30 | A limit order can reach exactly what is priced at its limit or better for it. |
| MatchingModel.AllocationIsExact | src/engine/order_book.cpp:25-49 | Who gets how much, without walking: a resting order is hit exactly if its price is accepted and what rests ahead of it leaves something of the incoming order, and then trades what is left up to all it has. |
| MatchingModel.RestingOrderSetsPriceIff | src/engine/matching_engine.cpp:20 | The exact condition on the two timestamps (and prices) under which a trade is at the resting order's price. |
| MatchingModel.EqualTimestampsFavourTheBuyersPrice | src/engine/matching_engine.cpp:20 | At equal timestamps a buy at 101 pays 101 to a sell resting at 100. |
| MatchingModel.TradeIsInsideBothLimits | src/engine/matching_engine.cpp:12-27 | A trade between orders that cross is at a price inside both limits. |
| MatchingModel.ReportsMirrorFills | src/engine/matching_engine.cpp:32-58 | Each fill is told to its buyer and then its seller, with its quantity and price: each report has the symbol, side, limit, quantity and client of that party's order, what this and the fills before it leave of it, and Filled exactly if that is nothing; there are no other fill reports. |
| OrderBooks.OrderBook.WalkLevels | src/engine/order_book.cpp:25-49 | The nested loops over price levels and their lists, with erasing of emptied levels and of index entries on the way, are the walk down the one priority queue. |
| OrderBooks.OrderBook.SubmitInternal | src/engine/order_book.cpp:19-149 | Submission on levels, lists and index changes the book as the queue model's submission does, with the same fills and reports, drawing one trade id per fill. |
| OrderBooks.OrderBook.CancelOrder | src/engine/order_book.cpp:151-192 | Cancellation through the index takes exactly the indexed order out of its queue and reports it to its client; an unknown id changes nothing. |
| OrderBooks.OrderBook.ModifyOrder | src/engine/order_book.cpp:194-231 | Modification is that removal followed by a fresh submission under the old id, side and client, so time priority is lost. |
| OrderBooks.OrderBook.QueryOrder | src/engine/order_book.cpp:233-240 | A query answers exactly for indexed ids, with the order of the node the entry points at. |
| OrderBooks.OrderBook.BestBid | src/engine/order_book.cpp:242-248 | The price is that of the head of the bids and no resting bid is higher; 0 without bids. |
| OrderBooks.OrderBook.BestAsk | src/engine/order_book.cpp:250-256 | The price is that of the head of the asks and no resting ask is lower; 0 without asks. |
| OrderBooks.MatchTwo | src/engine/matching_engine.cpp:12-27 | Two orders are matched with a trade id drawn only if something is traded. |
| BookOutcomes.SubmissionTakesWhatIsAvailable | src/engine/order_book.cpp:19-149 | A submission trades, and takes from the other side, the smaller of what it asks for and what is available to it: all of that side for a market order, what is priced within its limit for a limit order. |
| BookOutcomes.SubmissionRestsIff | src/engine/order_book.cpp:51-56 | On its own side a submission changes nothing but that a limit order that asks for more than is available comes to rest there as the latest arrival, as it was submitted but for the remaining quantity. |
| BookOutcomes.SubmissionTells | src/engine/order_book.cpp:51-84 | The reports of a submission are the two to each fill and then, if something is left: New for a limit order that traded nothing, none for one that did, and Cancelled with the reason and the unfilled quantity for a market order. |
| BookOutcomes.CancellationIsExact | src/engine/order_book.cpp:151-192 | A known id is found, the order it leads to goes from the book and nothing else does, and one Cancelled report carries its id, side, price and client; an unknown id changes nothing, is not found and is not reported. |
| BookOutcomes.ModificationIsExact | src/engine/order_book.cpp:194-231 | Modifying a known id is cancelling it and submitting an order of the new price, quantity and time under the old id, symbol, side, type and client; an unknown id changes nothing. |
| BookOutcomes.ModifiedOrderRestsIff | src/engine/order_book.cpp:222-230 | On the order's side a modification changes nothing but that the old order goes and, if it asks for more than is available, the new one comes to rest as the latest arrival. |
| LevelModel.PushedFlat | src/engine/order_book.cpp:53 | Appending to the list at a price, made if need be, is insertion into the queue behind everything of equal or better price. |
| LevelModel.ErasedFlat | src/engine/order_book.cpp:162-169 | Erasing a list node under its price, and the price if its list is then empty, takes that node and nothing else out of the queue. |
| BookLaws.StepGood | src/engine/order_book.cpp:19-231 | Every operation with any argument keeps both sides sorted by price and arrival with live limit orders only, the book uncrossed, and every index entry pointing at a node that holds the order it names. |
| BookLaws.QuantityIsConserved | src/engine/order_book.cpp:19-231 | Over every run, on each side: quantity brought in equals quantity resting, traded and withdrawn; and the invariant of the book holds throughout. |
| BookLaws.SubmitCompleteIff | src/engine/order_index.hpp:25-28 | A submission leaves every resting order reachable by its id, unless it is a limit order that asks for more than it can reach under the id of a resting order it may not trade with; then exactly not. |
| BookLaws.QueryIsExact | src/engine/order_book.cpp:233-240 | In a book whose orders are all reachable, an id is known exactly if an order with it rests, and leads to that order and no other. |
| BookLaws.RestingOrdersStayReachable | src/engine/order_index.hpp:25-42 | Over every run that never submits an id twice, every resting order stays reachable. |
| BookLaws.StaysReachableIff | src/engine/order_index.hpp:25-42 | From any book whose orders can be reached, they can be throughout a run of any submissions exactly if no submission in it is of that kind when its turn comes. |
| BookLaws.OlderOrdersSetThePrice | src/engine/matching_engine.cpp:20 | If all resting orders are older than the incoming one, every trade is at the resting order's price. |
| BookLaws.SubmissionIsAnsweredIff | src/engine/order_book.cpp:51-84 | A submission with all its quantity remaining is answered by a report exactly if it asks for anything. |
| BookLaws.ModificationIsAnsweredIff | src/engine/order_book.cpp:222-230 | A modification of a known order is answered exactly if its quantity is not zero; at zero it is a silent removal. |
| RiskChecks.RiskChecker.ValidateOrder | src/engine/risk_checker.cpp:11-43 | Lets exactly the orders through that meet all five limits, by their numbers, the value limit on the true product, and remembers exactly their ids; a refusal names the first limit that is not met. |
| RiskChecks.ValueDoesNotWrap | src/engine/risk_checker.cpp:34-36 | Behind the bounds checked first, the 64-bit product is the true one. |
| RiskChecks.AcceptedIdsAreNew | src/engine/risk_checker.cpp:29-41 | Over every run of the check the accepted ids are pairwise different and none was seen before. |
| RiskChecks.AcceptedIdsAreExact | src/engine/risk_checker.cpp:11-43 | Over every run of the check an id is accepted exactly if it was not seen before and some order presented under it meets the other limits. |
| RiskChecks.GatedBooksStayReachable | src/threadpool/thread_pool.cpp:57-97 | Whatever orders are presented, whatever symbols are registered meanwhile, and in whatever order workers get the accepted ones to a book, also a recovered one: if it has none of the accepted ids to begin with, every order resting in it can be reached by its id. |
| RiskChecks.ForgottenIdsHideOrders | src/engine/risk_checker.cpp:29-41 | After a restart an order with the id of one that rests in a recovered book is accepted, and hides that one exactly if it is a limit order that asks for more than it can reach, having traded or not, and may not trade with that one. |
| RiskChecks.SubmitKeepsLimitsIff | src/engine/order_book.cpp:19-149 | In a book within the limits, a submission leaves everything within them exactly if it is within them, is a market order, or asks for no more than it can have at once. |
| RiskChecks.StepKeepsLimitsIff | src/engine/order_book.cpp:194-231 | The same for a modification, judged as the submission it amounts to, and for a cancellation, which always does. |
| RiskChecks.GatedRunKeepsLimitsIff | src/gateway/session.hpp:118-177 | Behind the risk check everything that rests keeps the limits throughout a run exactly if every modification in it is harmless. |
| RiskChecks.ModificationPassesLimits | src/gateway/session.hpp:163-175 | An accepted order modified to a price past the limit rests there; modified to quantity zero it is gone without a report. |
| ExchangeModel.SymbolsAreIndependent | src/threadpool/thread_pool.cpp:73-97 | A symbol's book, clients included, and its trades but for their numbers are those of executing its own requests alone, however they are interleaved with other symbols'. |
| ExchangeModel.StepNumbersOnlyFills | src/common/trade_id_generator.hpp:22-24 | The trade id a request starts from makes a difference to nothing but its fills: book, reports and answer are the same. |
| ExchangeModel.StepAlike | src/engine/order_book.cpp:19-231 | Books that differ only in clients still do so after the same request, with the same fills but for their trade ids, which count from where the one and the other start. |
| ExchangeModel.FillsAreNumbered | src/common/trade_id_generator.hpp:22-24 | The fills of a request executed while no other worker draws carry consecutive trade ids from the counter, and the book's symbol. |
| ExchangeModel.InterleavingRenumbers | src/common/trade_id_generator.hpp:22-24 | Of requests executed one at a time: letting another symbol's in first keeps a request's fills and their numbers exactly if not both trade. |
| ExchangeModel.TradeIdsRepeatIff | src/common/trade_id_generator.hpp:22-24 | Two runs that give every symbol the same requests and execute them one at a time, in any order of symbols, make the same fills under the same trade ids exactly if their trading requests come in the same order of symbols. |
| DrawModel.DrawsRepeatIff | src/engine/matching_engine.cpp:18 | However workers drew the numbers of their fills between each other's: executing the same requests one at a time makes the same fills under the same numbers exactly if it makes them in an order in which the symbols come, fill by fill, as in the draws. |
| DrawModel.OneAtATimeIsDrawn | src/common/trade_id_generator.hpp:22-24 | Executing requests one at a time is one of these ways of drawing, with numbers counting from where the exchange starts. |
| WalModel.UnpackPack | src/gateway/binary_serializer.hpp:61-143 | A packed struct assigned over any memory and read back gives every integer in range, and every text as its buffer kept it. |
| WalModel.KeptIff | src/gateway/binary_serializer.hpp:66-70 | A symbol survives its buffer exactly if it is shorter than the buffer and contains no terminator. |
| WalModel.RecordRoundTrip | src/pipeline/wal.cpp:41-99 | A record read back is the entry written, with the remaining quantity reset and the client missing; fills are passed over. |
| WalModel.OrderLayout | src/gateway/binary_serializer.hpp:24-32 | Which bytes of a record hold which member of a submission, with the numbers for type, side and kind. |
| WalModel.CancelLayout | src/gateway/binary_serializer.hpp:34-38 | The same for a cancellation. |
| WalModel.ModifyLayout | src/gateway/binary_serializer.hpp:40-46 | The same for a modification. |
| WalModel.FillLayout | src/pipeline/wal_event.hpp:16-24 | The same for a fill, which fills the record. |
| WalModel.LogRoundTrip | src/engine/replay_engine.cpp:24-47 | Reading a file of records gives every entry in order, whatever the records' unused bytes hold, and ignores a record torn off at the end. |
| WalModel.ChunksAfterTorn | src/pipeline/wal.cpp:16 | Records written after a torn one are read shifted: each begins with the end of what came before. |
| WalModel.AppendedIsReadIff | src/pipeline/wal.cpp:16 | Records appended to a file are read as they were written, whatever they are, exactly if the file did not end in a torn one. |
| RecoveryModel.ReplayLog | src/engine/replay_engine.cpp:11-51 | The reading loop leaves the exchange that the requests of the whole file lead to from an opening one. |
| RecoveryModel.RecoveryIsExact | src/engine/replay_engine.cpp:11-51 | If the log has each symbol's requests in the order its book executed them, in any interleaving of symbols and fills, replaying the file gives every book its state after those requests with the clients missing; it is identical exactly when no resting order had a client. |
| RecoveryModel.RecoveryOverRestarts | src/pipeline/wal.cpp:16 | Over any number of restarts, each going on from the replay of all that was logged before: replaying the file gives every book its state at the end of the last session up to clients, identical exactly when none rests with a client, and alike to what all requests would have led to without a restart. |
| RecoveryModel.TradeIdsComeBackIff | src/engine/replay_engine.cpp:19-21 | For any log that has each symbol's requests in order, and any interleaving of the draws: replaying the file makes every symbol's trades again but for their numbers, and all fills under the numbers they had drawn exactly if it makes them in an order in which the symbols come, fill by fill, as they did in the draws. |
| RecoveryModel.OneAtATimeIdsComeBackIff | src/engine/replay_engine.cpp:19-21 | If the requests were executed one at a time, that is exactly if those that trade are logged in the order of symbols in which they traded. |
| RecoveryModel.ReplayRepeatsTradeIds | src/engine/replay_engine.cpp:19-21 | In particular, if the whole log is in the order of execution, replay makes every fill again under its original trade id. |
| RecoveryCases.ClientIsLost | src/engine/replay_engine.cpp:27-32 | A client's resting order comes back from its log without the client. |
| RecoveryCases.SwappedPurchasesRenumber | src/engine/replay_engine.cpp:19-21 | Two symbols traded in one order and logged in the other, each symbol's requests in their order: the replayed fills differ. |
| RecoveryCases.OverlappingDrawsRenumber | src/engine/matching_engine.cpp:18 | A purchase of two shares of one symbol draws its numbers around that of a purchase of another; the log has the requests in the order of execution, and the replayed fills carry other numbers. |
| WorkerModel.WriterHasAPrefix | src/engine/order_book.cpp:11-17 | At every moment of every run of any number of workers, which may draw trade ids between each other's fills, what the log's writer has taken logs for each symbol the first of its requests in the order of execution, counting one in execution or about to be. |
| WorkerModel.QuietLogRecovers | src/threadpool/thread_pool.cpp:57-103 | In an exchange started from any log: once no worker holds a lock or is in the queue and it looks empty, a file of all that was logged before and since gives every book back as it is up to clients, identical exactly when none rests with a client. |
| WorkerModel.QuietTradeIdsComeBackIff | src/common/trade_id_generator.hpp:22-24 | Over every run of the workers, draw by draw: the fills since the start come back from the log under the numbers drawn exactly if executing the logged requests one at a time makes them in the order of symbols in which they were drawn. |
| MpscQueueModel.EnabledIsSafe | src/pipeline/mpsc_queue.hpp:41-63 | In every reachable state, no step of a producer or of the consumer touches a freed node, even if addresses are used again. |
| MpscQueueModel.QueueIsFifo | src/pipeline/mpsc_queue.hpp:41-63 | Over every interleaving of any number of producers with the consumer, the values taken are a prefix of the values in the order their nodes were swapped in: none lost, repeated or passed over. |
| MpscQueueModel.EmptyIff | src/pipeline/mpsc_queue.hpp:51-71 | The queue looks empty exactly if nothing is waiting or the producer of the first waiting value has not linked it yet. |
| MpscQueueModel.EmptyMeansDeliveredIff | src/pipeline/wal.cpp:101-111 | When the queue looks empty, which is when the log's writer stops, every value let in has been taken exactly if no producer is inside enqueue. |
| MpscQueueModel.WriterLosesNothingIff | src/pipeline/wal.cpp:27-31 | Running is cleared before the queue is closed: after the writer's last look and once all producers are out, everything let in has been taken exactly if nobody was inside at that look and nobody was let in since. |
| MpscQueueModel.ProducersKeepTheirOrder | src/pipeline/mpsc_queue.hpp:41-71 | Over every interleaving: what the consumer has got from any one producer is the front of what that producer called enqueue with before the closing, in its order, and all of it once the queue looks empty with nobody inside; later calls are refused. |
| MpscQueueModel.EnqueueAppends | src/pipeline/mpsc_queue.hpp:41-50 | A producer nobody interrupts gets its value in behind all others and is out again; after the closing nothing happens. |
| MpscQueueModel.QueueEmpties | src/pipeline/mpsc_queue.hpp:51-63 | With nobody inside, as many calls of dequeue as values are waiting take them all, in order, and leave one node in memory. |
| StreambufModel.QueueLaw | src/asio/basic_streambuf.hpp:214-346 | Over every run of such steps in which no throwing prepare scrambles unread bytes and no putback is of a byte one has overwritten, across shifts, growth, throws and putbacks: bytes removed followed by bytes readable are the bytes that entered, in order; and the put area ends at the largest room ever asked for and granted. |
| StreambufModel.QueueLawFromConstruction | src/asio/basic_streambuf.hpp:131-161 | The same for a new buffer of any maximum size, and size() never exceeds max_size(). |
| StreambufModel.RunKeepsInvariant | src/asio/basic_streambuf.hpp:214-346 | Over every run of such steps, the array lying at any address at each consume, with throws that scramble and putbacks of any depth: positions in order and inside the array, the array as long as the put area's end says and never shrinking, and that end the largest room ever asked for and granted. |
| StreambufModel.RunKeepsInvariantFromConstruction | src/asio/basic_streambuf.hpp:131-161 | The same for a new buffer: size() never exceeds max_size() in any state that such steps reach. |
| StreambufModel.StepKeepsValid | src/asio/basic_streambuf.hpp:214-346 | Every step, thrown or not, keeps the positions in order and inside the array and never shrinks it, and advances as promised, exactly if a count committed fits an int, and a count consumed does and its sum of addresses does not wrap (or wraps to an int that happens to be size()). With a maximum up to INT_MAX only a consume whose sum wraps can fail to. |
| StreambufModel.ThrowsIff | src/asio/basic_streambuf.hpp:214-346 | No step throws but a prepare of more than fits and a put into a full buffer, and those always do. |
| StreambufModel.ReserveIsExact | src/asio/basic_streambuf.hpp:209-219 | prepare(n) throws exactly if size() + n exceeds max_size(); otherwise the readable bytes stay, n fit, and the end of the put area becomes the larger of what it was and size() + n. |
| StreambufModel.ThrowingPrepareView | src/asio/basic_streambuf.hpp:321-341 | Where each readable byte comes from after a prepare that throws; no position changes. |
| StreambufModel.ThrowingPrepareIsHarmless | src/asio/basic_streambuf.hpp:321-341 | A throwing prepare leaves the readable bytes alone for all contents exactly if the get position is at the front or past as many bytes as remain. |
| StreambufModel.ThreePut | src/asio/basic_streambuf.hpp:283-306 | Three bytes put into a new buffer of four, and the state they lead to. |
| StreambufModel.ThrowingPrepareScrambles | src/asio/basic_streambuf.hpp:321-341 | From there, one byte taken and room for three asked for: the call throws and the readable bytes 2, 3 have become 3, 3. |
| StreambufModel.OverflowIsExact | src/asio/basic_streambuf.hpp:283-306 | overflow(c) throws exactly if the buffer is full, and then changes nothing; otherwise it appends c. |
| StreambufModel.CommitIsExact | src/asio/basic_streambuf.hpp:233-238 | commit(n) appends the first min(n, room) bytes of the put area exactly if that count fits an int, and then exposes them to the get area. |
| StreambufModel.HugeCommitFails | src/asio/basic_streambuf.hpp:233-238 | A commit of 2^31 bytes into as much room moves the put position before the array. |
| StreambufModel.ConsumeIsExact | src/asio/basic_streambuf.hpp:247-254 | For an array at any address: consume(n) drops the first min(n, size()) bytes, also when the get area lags behind, exactly if gptr() + n does not wrap and that count fits an int, or it wraps and the int that n becomes happens to be size(). |
| StreambufModel.WrappingConsumeFails | src/asio/basic_streambuf.hpp:251-253 | In a buffer of any size, a consume of the largest size_t on an array at address 16 moves the get position before the array. |
| StreambufModel.ConsumeCanBePutBack | src/asio/basic_streambuf.hpp:247-254 | After any consume that keeps its promise, as many putbacks as bytes were dropped are possible and make the same bytes readable again. |
| StreambufModel.SbumpcCanBePutBack | src/asio/basic_streambuf.hpp:263-274 | Taking a byte, through underflow if need be, is undone by a putback. |
| StreambufModel.PeekShowsTheNext | src/asio/basic_streambuf.hpp:263-274 | Peeking and taking show the first readable byte, the one leaving it and the other removing it; both fail exactly if nothing is readable. |
| StreambufModel.PutbackShowsTheLast | src/asio/basic_streambuf.hpp:263-274 | A putback shows the byte removed last and makes it readable again; it fails exactly at the front of the array. |
| StreambufModel.PrepareWriteCommit | src/asio/basic_streambuf.hpp:214-238 | Preparing room, filling it and committing it appends exactly the bytes written. |
| StreambufModel.ReadSizeCanBePrepared | src/asio/basic_streambuf.hpp:353-359 | The suggested size is within the request and the room left, and short of both only if it is 512 or the spare capacity, whichever is more; it is zero exactly if nothing is asked or nothing fits, and can be prepared without a throw. |
| Streambufs.Streambuf.Reserve | src/asio/basic_streambuf.hpp:308-346 | The in-place shift, resize and throw do what the model says, and no 64-bit subtraction or sum wraps. |
| Streambufs.Streambuf.Overflow | src/asio/basic_streambuf.hpp:283-306 | The growth step chosen by arithmetic on max_size() has the model's effect in all cases. |
| Streambufs.Streambuf.Commit | src/asio/basic_streambuf.hpp:233-238 | The put position moves by the converted count and the get area is exposed up to it. |
| Streambufs.Streambuf.Consume | src/asio/basic_streambuf.hpp:247-254 | For an array at any address, the get position moves by the converted count after the get area has caught up, the comparison being made on a 64-bit sum of addresses. |
| Streambufs.Streambuf.Sbumpc | src/asio/basic_streambuf.hpp:263-274 | Taking a byte goes through underflow when the get area is used up, as class template basic_streambuf, section 29.6.3 of ISO/IEC 14882:2020, lays down. |
| Streambufs.Streambuf.ReadSizeHelper | src/asio/basic_streambuf.hpp:353-359 | Its 64-bit subtractions do not wrap and the result can be read without exceeding the maximum. |
| SocketModel.DrainIsExact | src/asio/basic_socket_streambuf.hpp:449-482 | For every socket: the send loop succeeds exactly if all bytes were sent, and makes at most one call per byte and one per tick left before the deadline. |
| SocketModel.DrainSucceedsIff | src/asio/basic_socket_streambuf.hpp:449-482 | In terms of the socket's replies: the loop succeeds exactly if some number of them take everything, with no failure among them and no call past the deadline. |
| SocketModel.SendsIff | src/asio/basic_socket_streambuf.hpp:449-482 | With something to send, the loop sends something exactly if a reply takes a byte before any fails or comes past the deadline. |
| SocketModel.TimeOutMeansLate | src/asio/basic_socket_streambuf.hpp:451-456 | A time-out is reported only when the clock is past the expiry time. |
| SocketModel.FailureIsExact | src/asio/basic_socket_streambuf.hpp:449-482 | Where the send loop fails decides how: what the replies before took is sent, so many calls were made, the clock is where their waits have brought it, and the reason is the deadline or that very reply. |
| SocketModel.FailsSomewhere | src/asio/basic_socket_streambuf.hpp:449-482 | If the send loop does not succeed, there is such a turn. |
| SocketModel.FailedOverflowSendsStrictPrefix | src/asio/basic_socket_streambuf.hpp:449-482 | A failed overflow has sent a strict prefix of what was pending, keeps the put area and does not take the character. |
| SocketModel.SuccessfulOverflowSendsAll | src/asio/basic_socket_streambuf.hpp:427-498 | A successful overflow has sent everything pending once and in order, and the character is then pending or sent. |
| SocketModel.RetryRepeatsThePrefix | src/asio/basic_socket_streambuf.hpp:427-498 | A failed flush followed by a successful one sends the bytes of the first attempt again; the wire has the pending bytes once exactly if no reply to the first attempt took a byte before one failed or came too late. |
| SocketModel.FlushRepeats | src/asio/basic_socket_streambuf.hpp:427-498 | On a socket that takes one byte, fails, and then takes two, two bytes flushed twice are three on the wire. |
| SocketModel.HonouredSetbufUnbuffers | src/asio/basic_socket_streambuf.hpp:506-517 | The switch to unbuffered mode is refused while something is pending; once honoured, each character accepted is on the wire at once. |
| SocketModel.ExpiryCounts | src/asio/basic_socket_streambuf.hpp:449-456 | A new expiry time changes nothing else; if it has passed, a flush fails at once and sends nothing, and a flush that times out has passed it. |
| SocketModel.CloseDeliversIffFlushed | src/asio/basic_socket_streambuf.hpp:258-265 | A close that reports success has emptied the put area, and delivered it exactly if its flush succeeded; if the socket cannot be closed, the error is reported and what the flush left is kept. |
| SocketModel.CloseDeliversIff | src/asio/basic_socket_streambuf.hpp:258-265 | In terms of the socket's replies, known before the flush: exactly if some number of them take everything pending, with no failure and no call past the deadline. |
| SocketModel.CloseLoses | src/asio/basic_socket_streambuf.hpp:258-265 | On a socket that fails at the call, close reports success and the pending byte is gone. |
| SocketModel.OutputConservation | src/asio/basic_socket_streambuf.hpp:427-517 | Over every run, with any partial sends and a switch to unbuffered mode: bytes on the wire followed by the put area are the characters accepted exactly if no failed overflow had sent anything. |
| SocketModel.OutputConservationFromConstruction | src/asio/basic_socket_streambuf.hpp:427-517 | The same for a new stream buffer. |
| SocketModel.RefillIsExact | src/asio/basic_socket_streambuf.hpp:373-407 | A refill happens only with an empty get area, fits behind the putback slots, and puts exactly the received bytes there, which the next rows give in terms of the replies; a failed one changes no byte. |
| SocketModel.AwaitIsExact | src/asio/basic_socket_streambuf.hpp:381-423 | The receive loop goes on exactly while the socket would have blocked, became readable and the deadline has not passed; where it ends decides the bytes, the number of calls, the clock, and which of time-out, end of file and error results. |
| SocketModel.AwaitSucceedsIff | src/asio/basic_socket_streambuf.hpp:381-423 | It succeeds exactly if, after so many such replies, one gives at least a byte, with no call past the deadline. |
| SocketModel.EndsSomewhere | src/asio/basic_socket_streambuf.hpp:381-423 | There is always a turn at which it ends. |
| SocketModel.InputConservation | src/asio/basic_socket_streambuf.hpp:373-425 | Over every run, with putback up to the last refill: bytes taken followed by bytes unread are what the calls of recv made in it gave, once and in order. |
| SocketModel.InputConservationFromConstruction | src/asio/basic_socket_streambuf.hpp:373-425 | For a new stream buffer: bytes taken followed by bytes unread are exactly what all calls of recv so far have given, each up to the room behind the putback slots. |
| SocketModel.PeekShowsTheNext | src/asio/basic_socket_streambuf.hpp:373-425 | A peek shows the first byte received that has not been taken, and taking takes that one; both fail exactly if nothing is unread and nothing arrives. |
| SocketModel.PutbackShowsTheLast | src/asio/basic_socket_streambuf.hpp:373-425 | A putback shows the byte taken last and makes it unread again. |
| SocketModel.InExpiryCounts | src/asio/basic_socket_streambuf.hpp:381-386 | A new expiry time changes nothing else, and if it has passed, a refill fails at once. |
| SocketStreambufs.SocketStreambuf.SendAll | src/asio/basic_socket_streambuf.hpp:449-482 | The loop over partial sends, time-outs and waits terminates and sends what the model's recursion says. |
| SocketStreambufs.SocketStreambuf.Overflow | src/asio/basic_socket_streambuf.hpp:427-498 | overflow on the array and positions has the model's effect, buffered or not. |
| SocketStreambufs.SocketStreambuf.Underflow | src/asio/basic_socket_streambuf.hpp:373-425 | The receive loop terminates and refills the array as the model says, or reports the model's error. |
| SocketStreambufs.SocketStreambuf.SetUnbuffered | src/asio/basic_socket_streambuf.hpp:506-517 | The switch is honoured exactly while nothing is pending. |
| HandlerMemoryModel.GeometryIffNoWrap | src/asio/any_completion_handler.hpp:140-151 | For every base: aligned bytes and offset word lie inside the raw block exactly if the size arithmetic does not wrap, and then the pointer is aligned and less than align away from the base; the align call fails exactly if the first of the two sums wraps. |
| HandlerMemoryModel.RecoveryIsExact | src/asio/any_completion_handler.hpp:158-176 | In every reachable state deallocate recovers exactly the base and length that were handed out for the block. |
| HandlerMemoryModel.AllRawBlocksComeBack | src/asio/any_completion_handler.hpp:131-176 | Over every run of allocations, client stores and deallocations, wherever the underlying allocator puts its blocks: every pair given back is one that is out, and nothing is left out when no client block is left. |
| HandlerMemoryModel.BlocksHoldWhatWasStored | src/asio/any_completion_handler.hpp:131-176 | Over every run, a block that is not given back holds exactly what its client stored in it: no other client's store and no other block's offset word gets in. |
| HandlerMemoryModel.FailedAlignLeaksItsBlock | src/asio/any_completion_handler.hpp:148-155 | If std::align (section 20.10.5 of ISO/IEC 14882:2020) finds no room after the raw block was obtained, which takes a size that wraps, the raw block stays out with no owner. |
| HandlerMemoryModel.LargestRequestLeaks | src/asio/any_completion_handler.hpp:140-155 | The largest size with alignment 2 obtains eight bytes and leaks them. |
| HandlerMemoryModel.WrappedLengthGoesUnnoticed | src/asio/any_completion_handler.hpp:140-151 | One byte less than the largest size with alignment 1 obtains six bytes, and the align call goes well. |
| HandlerMemories.HandlerMemory.Allocate | src/asio/any_completion_handler.hpp:131-156 | Alignment and the stored offset on a byte array are the model's. |
| HandlerMemories.HandlerMemory.Deallocate | src/asio/any_completion_handler.hpp:158-176 | The offset read back from the array gives the pair handed out; a null pointer does nothing. |
| HandlerOwnershipModel.EveryTargetFreedOnce | src/asio/any_completion_handler.hpp:671-756 | Over every run from nothing: each live impl has one owner, every other was released once, after its destruction, was invoked at most once and only after its release; when no wrapper is left, no impl is. |
| HandlerOwnershipModel.InvokedIffCalled | src/asio/any_completion_handler.hpp:744-756 | Over every run from nothing: a handler is invoked, once and after its storage was released, exactly if some call that could move it out was made through a wrapper that owned it then. |
| HandlerOwnershipModel.OwnedLifeEnds | src/asio/any_completion_handler.hpp:178-191 | A called impl is destroyed, released and then invoked, unless moving its handler out throws; one whose wrapper is destroyed, nulled or assigned to is destroyed and released only. |
| HandlerOwnershipModel.LivesAreExact | src/asio/any_completion_handler.hpp:671-756 | What each operation does to each impl, by who owns it: built, ended, ended and invoked, or nothing. |
| HandlerOwnershipModel.OwnersAreExact | src/asio/any_completion_handler.hpp:671-742 | Who owns each impl after each operation, by who owned it before, and which wrappers there are. |
| HandlerOwnershipModel.RunSound | src/asio/any_completion_handler.hpp:639-756 | Every run keeps owners distinct, owned impls live, and each owner's function table the one for its impl's type. |
| HandlerOwnershipModel.TableOutlivesImpl | src/asio/any_completion_handler.hpp:745-752 | A wrapper with an impl has a function table; after a call it has a table and no impl. |
| HandlerOwnershipModel.SecondCallDoesNothing | src/asio/any_completion_handler.hpp:745-756 | A call of a called wrapper finds no target and changes nothing. |
| HandlerOwnerships.ImplHeap.Create | src/asio/any_completion_handler.hpp:90-106 | A constructor that throws leaves the raw storage to its guard, which gives it back; no impl is left. |
| HandlerOwnerships.ImplHeap.Call | src/asio/any_completion_handler.hpp:178-191 | The guard gives the impl up before the handler is invoked, which happens if it could be moved out, and gives it up also if moving it out throws. |
| HandlerOwnerships.Guard.Reset | src/asio/any_completion_handler.hpp:63-88 | What a guard still holds at the end of its scope is given up as its deleter says, once; what it has let go of is left alone. |
| HandlerOwnerships.AnyCompletionHandler.Assign | src/asio/any_completion_handler.hpp:683-689 | Assignment through a temporary takes the other's target, empties the other and frees the old one; onto oneself it changes nothing. |
| HandlerOwnerships.AnyCompletionHandler.Call | src/asio/any_completion_handler.hpp:744-756 | A call throws exactly without a target, and otherwise leaves the table, takes the impl and has it called. |
| HandlerOwnerships.Program.MoveAssign | src/asio/any_completion_handler.hpp:683-689 | Among any number of wrapper objects, assignment changes the world of wrappers and impls as the model's step does. |
| HandlerOwnerships.Program.Call | src/asio/any_completion_handler.hpp:744-756 | Among any number of wrapper objects, a call changes the world as the model's step does. |

## Assumptions

- A socket that would have blocked keeps its caller waiting for at least one tick of the clock, and
  the expiry time is finite. Termination of the two retry loops rests on this.
- Client code stays inside its blocks and passes back the size and alignment it was given; a buffer's
  user writes only into room that prepare made.
- Little-endian words, as on the machines the build script is for. Atomic operations interleave in
  one order, which is what their default memory order provides.
- `std::map` is its elements in order, `std::list` iterators are node identities that stay valid.

## Left out

- OrderBooks.OrderBook.SubmitInternal: the two branches for buy and sell are one, told apart by the side; no other worker draws trade ids during the call. StepNumbersOnlyFills says that this decides nothing but the fills' numbers, and WorkerModel what holds of them when others do draw.
- MatchingModel.MatchTakesPrefix: the numbers of the fills are those of an undisturbed walk, for the same reason.
- ExchangeModel.FillsAreNumbered: likewise; other workers' draws between a request's fills are in DrawModel and WorkerModel.
- WalModel.RecordRoundTrip: a symbol buffer without a terminator, which only a foreign client could send, is not modelled.
- HandlerMemoryModel.AllRawBlocksComeBack: requests whose size arithmetic wraps are excluded; GeometryIffNoWrap and FailedAlignLeaksItsBlock say what they do.
- BookRegistry and the worker loop as objects: the books of an exchange are a map of values here. A worker draws its numbers one step at a time and its book changes at the last of its steps, which nobody can see, as it holds the book's lock throughout.
- WorkerModel.QuietLogRecovers: requests executed while the log is stopped, which are not logged at all, are not among its steps.
- Wall-clock readings in fills and reports; log lines; 64-bit overflow of the trade id counter.
- The gateway's sessions, the connection manager, the bounded task queue and the thread pool's start and shutdown: thin or dependent on services outside the repository.
- Publishing of reports and trades to clients: a second use of the queue modelled here.
- Move construction and assignment of a socket stream buffer, which do not carry pending output; connecting and the conversion of time-outs.
- What the eight putback slots hold after a refill.
- Failure of vector growth and of the underlying allocator, and the Windows runtime branches.
- Associators, executors and the other sockets, files, pipes and timers.
