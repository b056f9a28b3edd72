/**
 * Trade ids as they are drawn: one by one, fill by fill, from a counter that all workers share.  A
 * worker holds the lock of one book only, so others can draw between two fills of its request.
 */
module DrawModel {
  import opened ExchangeTypes
  import opened BookModel
  import opened BookLaws
  import opened ExchangeModel

  function FillsFor(fills: seq<Fill>, s: Symbol): seq<Fill> {
    if fills == [] then []
    else (if fills[0].symbol == s then [fills[0]] else []) + FillsFor(fills[1..], s)
  }

  function FillSymbols(fills: seq<Fill>): (r: seq<Symbol>)
    ensures |r| == |fills|
  {
    seq(|fills|, i requires 0 <= i < |fills| => fills[i].symbol)
  }

  ghost predicate WithoutNumbers(fills: seq<Fill>) {
    forall i | 0 <= i < |fills| :: fills[i].tradeId == 0
  }

  /** The fills of a run, still without numbers. */
  function DrawsOf(x: Exchange, rs: seq<Request>): seq<Fill>
    requires AllGood(x)
  {
    AllFills(Trades(x, rs))
  }

  /** Fills in the order in which their numbers were drawn, from an exchange on: each symbol's are
      those of its own requests executed one after the other, and nothing is said about how the
      symbols' draws fall between each other. */
  ghost predicate DrawnBy(x: Exchange, live: seq<Request>, draws: seq<Fill>)
    requires AllGood(x)
  {
    WithoutNumbers(draws) && forall s {:trigger DrawnFor(x, live, draws, s)} :: DrawnFor(x, live, draws, s)
  }

  ghost predicate DrawnFor(x: Exchange, live: seq<Request>, draws: seq<Fill>, s: Symbol) {
    Good(BookOf(x, s)) && FillsFor(draws, s) == AllFills(TradesAfter(BookOf(x, s), OpsFor(live, s), s))
  }

  lemma FirstFillFor(f: Fill, fills: seq<Fill>, s: Symbol)
    ensures FillsFor([f] + fills, s) == (if f.symbol == s then [f] else []) + FillsFor(fills, s)
  {
    assert ([f] + fills)[1..] == fills;
  }

  lemma MoreJoin(f: Fill, a: seq<Fill>, b: seq<Fill>, s: Symbol)
    requires FillsFor(a + b, s) == FillsFor(a, s) + FillsFor(b, s)
    ensures FillsFor([f] + a + b, s) == FillsFor([f] + a, s) + FillsFor(b, s)
  {
    FirstFillFor(f, a + b, s);
    FirstFillFor(f, a, s);
    assert [f] + a + b == [f] + (a + b);
  }

  lemma {:induction false} FillsForJoin(a: seq<Fill>, b: seq<Fill>, s: Symbol)
    ensures FillsFor(a + b, s) == FillsFor(a, s) + FillsFor(b, s)
  {
    if a == [] {
      assert a + b == b;
    } else {
      FillsForJoin(a[1..], b, s);
      MoreJoin(a[0], a[1..], b, s);
      assert a == [a[0]] + a[1..];
    }
  }

  /** The fills of one symbol only are all there are for it, and none for another. */
  lemma {:induction false} FillsForOne(fills: seq<Fill>, of: Symbol, s: Symbol)
    requires forall i | 0 <= i < |fills| :: fills[i].symbol == of
    ensures FillsFor(fills, s) == if of == s then fills else []
  {
    if fills != [] {
      FillsForOne(fills[1..], of, s);
      assert fills == [fills[0]] + fills[1..];
    }
  }

  lemma FirstBlock(block: Block, blocks: seq<Block>, s: Symbol)
    ensures AllFills([block] + blocks) == block.fills + AllFills(blocks)
    ensures AllFills(BlocksFor([block] + blocks, s))
         == (if block.symbol == s then block.fills else []) + AllFills(BlocksFor(blocks, s))
  {
    assert ([block] + blocks)[1..] == blocks;
    if block.symbol == s {
      assert ([block] + BlocksFor(blocks, s))[1..] == BlocksFor(blocks, s);
    } else {
      assert [] + BlocksFor(blocks, s) == BlocksFor(blocks, s);
      assert [] + AllFills(BlocksFor(blocks, s)) == AllFills(BlocksFor(blocks, s));
    }
  }

  /** A symbol's fills are the fills of its blocks. */
  lemma {:induction false} FillsOfBlocksFor(blocks: seq<Block>, s: Symbol)
    requires Proper(blocks)
    ensures FillsFor(AllFills(blocks), s) == AllFills(BlocksFor(blocks, s))
  {
    if blocks != [] {
      var block := blocks[0];
      assert ProperBlock(block) && blocks == [block] + blocks[1..];
      FillsOfBlocksFor(blocks[1..], s);
      FirstBlock(block, blocks[1..], s);
      FillsForOne(block.fills, block.symbol, s);
      FillsForJoin(block.fills, AllFills(blocks[1..]), s);
    }
  }

  /** Requests executed one at a time are one way of drawing. */
  lemma OneAtATimeIsDrawn(x: Exchange, rs: seq<Request>)
    requires AllGood(x)
    ensures DrawnBy(x, rs, DrawsOf(x, rs))
    ensures FillsOf(x, rs) == Numbered(DrawsOf(x, rs), x.trade)
  {
    var blocks, all := FillsAreTrades(x, rs);
    ProperFills(blocks);
    forall s
      ensures DrawnFor(x, rs, all, s)
    {
      FillsOfBlocksFor(blocks, s);
      SymbolsAreIndependent(x, rs, s);
    }
  }

  ghost predicate SameFillsForEach(f: seq<Fill>, g: seq<Fill>) {
    forall s {:trigger FillsFor(f, s)} :: FillsFor(f, s) == FillsFor(g, s)
  }

  lemma FirstFillsAgree(f: seq<Fill>, g: seq<Fill>)
    requires SameFillsForEach(f, g) && f != [] && g != [] && f[0].symbol == g[0].symbol
    ensures f[0] == g[0] && SameFillsForEach(f[1..], g[1..])
  {
    assert f == [f[0]] + f[1..] && g == [g[0]] + g[1..];
    var s := f[0].symbol;
    FirstFillFor(f[0], f[1..], s);
    FirstFillFor(g[0], g[1..], s);
    assert FillsFor(f, s) == FillsFor(g, s);
    assert FillsFor(f, s)[0] == f[0] && FillsFor(g, s)[0] == g[0];
    forall t
      ensures FillsFor(f[1..], t) == FillsFor(g[1..], t)
    {
      FirstFillsCancel(f[0], f[1..], g[1..], t);
    }
  }

  lemma FirstFillsCancel(first: Fill, f: seq<Fill>, g: seq<Fill>, s: Symbol)
    requires FillsFor([first] + f, s) == FillsFor([first] + g, s)
    ensures FillsFor(f, s) == FillsFor(g, s)
  {
    FirstFillFor(first, f, s);
    FirstFillFor(first, g, s);
    var n := if first.symbol == s then 1 else 0;
    assert FillsFor([first] + f, s)[n..] == FillsFor(f, s) && FillsFor([first] + g, s)[n..] == FillsFor(g, s);
  }

  /** Fills that are the same for each symbol are the same if their symbols come in the same order. */
  lemma {:induction false} FillOrderDecides(f: seq<Fill>, g: seq<Fill>)
    requires SameFillsForEach(f, g) && FillSymbols(f) == FillSymbols(g)
    ensures f == g
  {
    assert |f| == |FillSymbols(f)| == |g|;
    if f != [] {
      assert FillSymbols(f)[0] == f[0].symbol && FillSymbols(g)[0] == g[0].symbol;
      FirstFillsAgree(f, g);
      assert FillSymbols(f[1..]) == FillSymbols(f)[1..] && FillSymbols(g[1..]) == FillSymbols(g)[1..];
      FillOrderDecides(f[1..], g[1..]);
      assert f == [f[0]] + f[1..] && g == [g[0]] + g[1..];
    }
  }

  /**
   * However workers drew the numbers of their fills between each other's, a run of the same requests
   * one at a time makes the same fills under the same numbers if and only if it makes them in an
   * order in which the symbols come as they did in the draws, fill by fill.
   */
  lemma DrawsRepeatIff(x: Exchange, y: Exchange, live: seq<Request>, draws: seq<Fill>, again: seq<Request>)
    requires AllGood(x) && AllGood(y) && AlikeExchanges(x, y) && SameRequestsForEach(live, again)
    requires DrawnBy(x, live, draws)
    ensures Numbered(draws, x.trade) == FillsOf(y, again) <==> FillSymbols(draws) == FillSymbols(DrawsOf(y, again))
  {
    var drawn := DrawsOf(y, again);
    OneAtATimeIsDrawn(y, again);
    NumberedIsInjective(draws, drawn, x.trade);
    SameDrawsForEach(x, y, live, draws, again);
    if FillSymbols(draws) == FillSymbols(drawn) {
      FillOrderDecides(draws, drawn);
    }
  }

  lemma SameDrawsForEach(x: Exchange, y: Exchange, live: seq<Request>, draws: seq<Fill>, again: seq<Request>)
    requires AllGood(x) && AllGood(y) && AlikeExchanges(x, y) && SameRequestsForEach(live, again)
    requires DrawnBy(x, live, draws) && DrawnBy(y, again, DrawsOf(y, again))
    ensures SameFillsForEach(draws, DrawsOf(y, again))
  {
    forall s
      ensures FillsFor(draws, s) == FillsFor(DrawsOf(y, again), s)
    {
      assert DrawnFor(x, live, draws, s) && DrawnFor(y, again, DrawsOf(y, again), s);
      assert AlikeRuns(OpsFor(live, s), OpsFor(again, s));
      TradesAfterAlike(BookOf(x, s), BookOf(y, s), OpsFor(live, s), OpsFor(again, s), s);
    }
  }
}
