/**
 * The lock-free queue of the log and the execution pipeline, as the atomic steps that any number
 * of producers and one consumer interleave.  A producer looks whether the queue is closed, then
 * swaps its node in as the tail, then links the old tail to it; between the last two steps the
 * list is broken.  Nodes live at addresses, and an address may be used again once it is freed.
 */
module MpscQueueModel {
  import opened Bytes

  datatype Cell<T> = Cell(data: Option<T>, next: Option<nat>)

  /** Where a producer inside enqueue stands. */
  datatype Phase<T> = Admitted(value: T) | Linking(prev: nat, node: nat)

  /**
   * The live nodes by address, the two ends, and the producers inside enqueue; beside them, as
   * history only: the nodes from head to tail in the order they were swapped in, the values in
   * that order, and the values the consumer has got.
   */
  datatype State<T> = State(mem: map<nat, Cell<T>>, head: nat, tail: nat, closed: bool, inside: map<nat, Phase<T>>,
                            chain: seq<nat>, order: seq<T>, out: seq<T>)

  function Initial<T>(stub: nat): State<T> {
    State(map[stub := Cell(None, None)], stub, stub, false, map[], [stub], [], [])
  }

  datatype Step<T> =
    | Enter(producer: nat, value: T)
    | Swap(producer: nat, node: nat)   // node is where the new node was allocated
    | Link(producer: nat)
    | Dequeue
    | Close

  predicate Enabled<T>(s: State<T>, step: Step<T>) {
    match step
    case Enter(t, _) => t !in s.inside
    case Swap(t, n) => t in s.inside && s.inside[t].Admitted? && n !in s.mem
    case Link(t) => t in s.inside && s.inside[t].Linking?
    case _ => true
  }

  /** The step touches live nodes only. */
  predicate Safe<T>(s: State<T>, step: Step<T>) {
    match step
    case Link(t) => t in s.inside && s.inside[t].Linking? ==> s.inside[t].prev in s.mem && s.inside[t].node in s.mem
    case Dequeue =>
      && s.head in s.mem
      && (s.mem[s.head].next.Some? ==>
            s.mem[s.head].next.value in s.mem && s.mem[s.mem[s.head].next.value].data.Some?)
    case _ => true
  }

  function Next<T>(s: State<T>, step: Step<T>): State<T>
    requires Enabled(s, step) && Safe(s, step)
  {
    match step
    case Enter(t, v) => if s.closed then s else s.(inside := s.inside[t := Admitted(v)])
    case Swap(t, n) =>
      var v := s.inside[t].value;
      s.(mem := s.mem[n := Cell(Some(v), None)], tail := n, inside := s.inside[t := Linking(s.tail, n)],
         chain := s.chain + [n], order := s.order + [v])
    case Link(t) =>
      var Linking(p, n) := s.inside[t];
      s.(mem := s.mem[p := s.mem[p].(next := Some(n))], inside := s.inside - {t})
    case Dequeue =>
      var next := s.mem[s.head].next;
      if next.None? then s
      else
        var n := next.value;
        s.(mem := s.mem[n := s.mem[n].(data := None)] - {s.head}, head := n,
           chain := if s.chain != [] then s.chain[1..] else [], out := s.out + [s.mem[n].data.value])
    case Close => s.(closed := true)
  }

  // ---------------------------------------------------------------- the invariant

  /** The nodes in memory are the chain from head to tail, without repetition. */
  ghost predicate ChainIsMemory<T>(s: State<T>) {
    && s.chain != [] && s.chain[0] == s.head && s.chain[|s.chain| - 1] == s.tail
    && (forall i, j | 0 <= i < j < |s.chain| :: s.chain[i] != s.chain[j])
    && (forall a :: a in s.mem <==> a in s.chain)
  }

  /** The producer is about to put link i of the chain in place. */
  predicate IsLinking<T>(s: State<T>, t: nat, i: nat) {
    i + 1 < |s.chain| && t in s.inside && s.inside[t] == Linking(s.chain[i], s.chain[i + 1])
  }

  /** Link i of the chain is in place, or a producer is about to put it there. */
  ghost predicate LinkOk<T>(s: State<T>, i: nat) {
    i + 1 < |s.chain| && s.chain[i] in s.mem &&
    (s.mem[s.chain[i]].next == Some(s.chain[i + 1])
     || (s.mem[s.chain[i]].next == None && exists t: nat :: IsLinking(s, t, i)))
  }

  /** A producer that has swapped its node in is about to put some missing link in place. */
  ghost predicate ProducerOk<T>(s: State<T>, t: nat) {
    exists i: nat :: IsLinking(s, t, i) && s.chain[i] in s.mem && s.mem[s.chain[i]].next == None
  }

  predicate IsInLinking<T>(s: State<T>, t: nat) { t in s.inside && s.inside[t].Linking? }

  /** The nodes behind the head hold the values that have not been taken yet, in order. */
  predicate ValueOk<T(==)>(s: State<T>, i: nat) {
    && 1 <= i < |s.chain| && s.chain[i] in s.mem && |s.out| + i - 1 < |s.order|
    && s.mem[s.chain[i]].data == Some(s.order[|s.out| + i - 1])
  }

  ghost predicate LinksOk<T>(s: State<T>) {
    forall i: nat {:trigger LinkOk(s, i)} | i + 1 < |s.chain| :: LinkOk(s, i)
  }

  ghost predicate ProducersOk<T>(s: State<T>) {
    && (forall t: nat {:trigger ProducerOk(s, t)} | IsInLinking(s, t) :: ProducerOk(s, t))
    && (forall t: nat, u: nat | IsInLinking(s, t) && IsInLinking(s, u) && t != u ::
          s.inside[t].prev != s.inside[u].prev)
  }

  ghost predicate ValuesOk<T>(s: State<T>) {
    && |s.out| <= |s.order| && |s.order| == |s.out| + |s.chain| - 1
    && s.out == s.order[..|s.out|]
    && forall i: nat {:trigger ValueOk(s, i)} | 1 <= i < |s.chain| :: ValueOk(s, i)
  }

  ghost predicate Inv<T>(s: State<T>) {
    && ChainIsMemory(s)
    && s.tail in s.mem && s.mem[s.tail].next == None
    && LinksOk(s)
    && ProducersOk(s)
    && ValuesOk(s)
  }

  lemma InitialInv<T>(stub: nat)
    ensures Inv(Initial<T>(stub))
  {
  }

  /** No step of any producer or of the consumer touches a node that has been freed. */
  lemma EnabledIsSafe<T>(s: State<T>, step: Step<T>)
    requires Inv(s) && Enabled(s, step)
    ensures Safe(s, step)
  {
    match step
    case Link(t) =>
      assert IsInLinking(s, t);
      assert ProducerOk(s, t);
      var i: nat :| IsLinking(s, t, i) && s.chain[i] in s.mem && s.mem[s.chain[i]].next == None;
      assert s.chain[i + 1] in s.chain;
    case Dequeue =>
      HeadIsChained(s);
    case _ =>
  }

  /** What the consumer finds behind the head is the next node of the chain, with its value. */
  lemma HeadIsChained<T>(s: State<T>)
    requires Inv(s)
    ensures s.head in s.mem
    ensures s.mem[s.head].next.Some? ==>
      |s.chain| > 1 && s.mem[s.head].next == Some(s.chain[1]) && ValueOk(s, 1)
  {
    assert s.chain[0] in s.chain;
    if s.mem[s.head].next.Some? {
      assert LinkOk(s, 0);
      assert ValueOk(s, 1);
    }
  }

  /** The link a producer is about to put in place. */
  lemma MissingLink<T>(s: State<T>, t: nat) returns (i: nat)
    requires ProducersOk(s) && IsInLinking(s, t)
    ensures IsLinking(s, t, i) && s.chain[i] in s.mem && s.mem[s.chain[i]].next == None
  {
    assert ProducerOk(s, t);
    i :| IsLinking(s, t, i) && s.chain[i] in s.mem && s.mem[s.chain[i]].next == None;
  }

  lemma EnterInv<T>(s: State<T>, t: nat, v: T)
    requires Inv(s) && t !in s.inside
    ensures Inv(s.(inside := s.inside[t := Admitted(v)]))
  {
    var s' := s.(inside := s.inside[t := Admitted(v)]);
    forall i: nat | i + 1 < |s'.chain| ensures LinkOk(s', i) {
      assert LinkOk(s, i);
      if s.mem[s.chain[i]].next == None {
        var u: nat :| IsLinking(s, u, i);
        assert IsLinking(s', u, i);
      }
    }
    forall u: nat | IsInLinking(s', u) ensures IsInLinking(s, u) && ProducerOk(s', u) {
      var i := MissingLink(s, u);
      assert IsLinking(s', u, i);
    }
    forall i: nat | 1 <= i < |s'.chain| ensures ValueOk(s', i) { assert ValueOk(s, i); }
  }

  lemma SwapLinks<T>(s: State<T>, t: nat, n: nat)
    requires Inv(s) && Enabled(s, Swap(t, n))
    ensures LinksOk(Next(s, Swap(t, n)))
  {
    var s', k := Next(s, Swap(t, n)), |s.chain|;
    forall i: nat | i + 1 < |s'.chain| ensures LinkOk(s', i) {
      assert s'.chain[i] in s.chain;
      if i + 1 < k {
        assert LinkOk(s, i);
        if s.mem[s.chain[i]].next == None {
          var u: nat :| IsLinking(s, u, i);
          assert IsLinking(s', u, i);
        }
      } else {
        assert IsLinking(s', t, i);
      }
    }
  }

  lemma SwapProducers<T>(s: State<T>, t: nat, n: nat)
    requires Inv(s) && Enabled(s, Swap(t, n))
    ensures ProducersOk(Next(s, Swap(t, n)))
  {
    var s', k := Next(s, Swap(t, n)), |s.chain|;
    forall u: nat | IsInLinking(s', u)
      ensures ProducerOk(s', u) && (u != t ==> IsInLinking(s, u) && s'.inside[u].prev != s.tail)
    {
      if u == t {
        assert s.tail in s.chain && IsLinking(s', t, k - 1);
      } else {
        var i := MissingLink(s, u);
        assert IsLinking(s', u, i) && s.chain[i] in s.chain;
      }
    }
  }

  lemma SwapInv<T>(s: State<T>, t: nat, n: nat)
    requires Inv(s) && Enabled(s, Swap(t, n))
    ensures Inv(Next(s, Swap(t, n)))
  {
    var s' := Next(s, Swap(t, n));
    assert n !in s.chain;
    SwapLinks(s, t, n);
    SwapProducers(s, t, n);
    forall i: nat | 1 <= i < |s'.chain| ensures ValueOk(s', i) {
      if i < |s.chain| {
        assert ValueOk(s, i) && s.chain[i] in s.chain;
      }
    }
  }

  lemma LinkLinks<T>(s: State<T>, t: nat)
    requires Inv(s) && Enabled(s, Link(t)) && Safe(s, Link(t))
    ensures LinksOk(Next(s, Link(t)))
  {
    var s' := Next(s, Link(t));
    var k := MissingLink(s, t);
    forall i: nat | i + 1 < |s'.chain| ensures LinkOk(s', i) {
      assert LinkOk(s, i);
      if i != k && s.mem[s.chain[i]].next == None {
        var u: nat :| IsLinking(s, u, i);
        assert u != t && IsLinking(s', u, i);
      }
    }
  }

  lemma LinkProducers<T>(s: State<T>, t: nat)
    requires Inv(s) && Enabled(s, Link(t)) && Safe(s, Link(t))
    ensures ProducersOk(Next(s, Link(t)))
  {
    var s' := Next(s, Link(t));
    forall u: nat | IsInLinking(s', u) ensures IsInLinking(s, u) && ProducerOk(s', u) {
      assert IsInLinking(s, u) && IsInLinking(s, t) && u != t;
      var i := MissingLink(s, u);
      assert s.chain[i] != s.inside[t].prev;
      assert IsLinking(s', u, i);
    }
  }

  lemma LinkInv<T>(s: State<T>, t: nat)
    requires Inv(s) && Enabled(s, Link(t)) && Safe(s, Link(t))
    ensures Inv(Next(s, Link(t)))
  {
    var s' := Next(s, Link(t));
    var k := MissingLink(s, t);
    LinkLinks(s, t);
    LinkProducers(s, t);
    assert s.chain[k] != s.tail;
    forall i: nat | 1 <= i < |s'.chain| ensures ValueOk(s', i) { assert ValueOk(s, i); }
  }

  lemma DistinctTail(c: seq<nat>)
    requires c != [] && forall i, j | 0 <= i < j < |c| :: c[i] != c[j]
    ensures c[0] !in c[1..] && forall a :: a in c <==> a == c[0] || a in c[1..]
    ensures forall i, j | 0 <= i < j < |c[1..]| :: c[1..][i] != c[1..][j]
  {
    assert c == [c[0]] + c[1..];
    assert forall i | 0 <= i < |c[1..]| :: c[1..][i] == c[i + 1];
  }

  /** The node the consumer leaves goes, and the rest of the chain stays. */
  lemma DequeueChain<T>(s: State<T>)
    requires Inv(s) && Safe(s, Dequeue) && s.mem[s.head].next.Some?
    ensures var s' := Next(s, Dequeue);
      && |s.chain| > 1 && s'.chain == s.chain[1..] && s'.head == s.chain[1] && ChainIsMemory(s')
      && s'.inside == s.inside && s'.order == s.order && s'.tail == s.tail && s.head !in s'.chain
    ensures DequeuedMemory(s)
  {
    DequeueTakes(s);
    DistinctTail(s.chain);
  }

  /** A node that stays keeps its link, and all but the new head their values. */
  ghost predicate DequeuedMemory<T>(s: State<T>)
    requires Safe(s, Dequeue)
  {
    var s' := Next(s, Dequeue);
    forall a | a in s'.mem ::
      a in s.mem && s'.mem[a].next == s.mem[a].next && (a != s'.head ==> s'.mem[a] == s.mem[a])
  }

  lemma DequeueTakes<T>(s: State<T>)
    requires Inv(s) && Safe(s, Dequeue) && s.mem[s.head].next.Some?
    ensures |s.chain| > 1 && Next(s, Dequeue).head == s.chain[1]
    ensures |s.out| < |s.order| && Next(s, Dequeue).out == s.out + [s.order[|s.out|]]
    ensures DequeuedMemory(s)
  {
    HeadIsChained(s);
  }

  lemma DequeueLinks<T>(s: State<T>)
    requires Inv(s) && Safe(s, Dequeue) && s.mem[s.head].next.Some?
    ensures LinksOk(Next(s, Dequeue)) && ProducersOk(Next(s, Dequeue))
  {
    var s' := Next(s, Dequeue);
    DequeueChain(s);
    forall i: nat | i + 1 < |s'.chain| ensures LinkOk(s', i) {
      assert LinkOk(s, i + 1);
      assert s'.chain[i] in s'.chain;
      if s.mem[s.chain[i + 1]].next == None {
        var u: nat :| IsLinking(s, u, i + 1);
        assert IsLinking(s', u, i);
      }
    }
    forall u: nat | IsInLinking(s', u) ensures IsInLinking(s, u) && ProducerOk(s', u) {
      assert IsInLinking(s, u);
      var i := MissingLink(s, u);
      assert i > 0 && IsLinking(s', u, i - 1) && s'.chain[i - 1] in s'.chain;
    }
  }

  lemma DequeueInv<T>(s: State<T>)
    requires Inv(s) && Safe(s, Dequeue)
    ensures Inv(Next(s, Dequeue))
  {
    if s.mem[s.head].next.Some? {
      var s' := Next(s, Dequeue);
      DequeueChain(s);
      DequeueLinks(s);
      DequeueValues(s);
      assert s'.tail in s'.chain;
    }
  }

  lemma DequeueValues<T>(s: State<T>)
    requires Inv(s) && Safe(s, Dequeue) && s.mem[s.head].next.Some?
    ensures ValuesOk(Next(s, Dequeue))
  {
    var s' := Next(s, Dequeue);
    DequeueChain(s);
    DequeueTakes(s);
    forall i: nat | 1 <= i < |s'.chain| ensures ValueOk(s', i) {
      assert ValueOk(s, i + 1) && s.chain[i + 1] != s.chain[1] && s'.chain[i] in s'.chain;
      ValueStays(s, s', i);
    }
  }

  lemma ValueStays<T>(s: State<T>, s': State<T>, i: nat)
    requires i >= 1 && ValueOk(s, i + 1)
    requires s'.order == s.order && |s'.out| == |s.out| + 1 && |s'.chain| == |s.chain| - 1
    requires s'.chain[i] == s.chain[i + 1]
    requires s'.chain[i] in s'.mem && s'.mem[s'.chain[i]] == s.mem[s.chain[i + 1]]
    ensures ValueOk(s', i)
  {
  }

  lemma StepInv<T>(s: State<T>, step: Step<T>)
    requires Inv(s) && Enabled(s, step)
    ensures Safe(s, step) && Inv(Next(s, step))
  {
    EnabledIsSafe(s, step);
    match step
    case Enter(t, v) => EnterInv(s, t, v);
    case Swap(t, n) => SwapInv(s, t, n);
    case Link(t) => LinkInv(s, t);
    case Dequeue => DequeueInv(s);
    case Close => CloseInv(s);
  }

  lemma CloseInv<T>(s: State<T>)
    requires Inv(s)
    ensures Inv(s.(closed := true))
  {
    var s' := s.(closed := true);
    forall i: nat | i + 1 < |s'.chain| ensures LinkOk(s', i) {
      assert LinkOk(s, i);
      if s.mem[s.chain[i]].next == None {
        var u: nat :| IsLinking(s, u, i);
        assert IsLinking(s', u, i);
      }
    }
    forall u: nat | IsInLinking(s', u) ensures IsInLinking(s, u) && ProducerOk(s', u) {
      assert IsInLinking(s, u);
      var i := MissingLink(s, u);
      assert IsLinking(s', u, i);
    }
    forall i: nat | 1 <= i < |s'.chain| ensures ValueOk(s', i) { assert ValueOk(s, i); }
  }

  // ---------------------------------------------------------------- what the queue is good for

  /** The values still in the queue: those swapped in but not taken. */
  function Waiting<T>(s: State<T>): seq<T>
    requires |s.out| <= |s.order|
  {
    s.order[|s.out|..]
  }

  /** dequeue finds nothing, and empty() is true, exactly if nothing is waiting or the producer of
      the first value waiting has not linked it yet. */
  lemma EmptyIff<T>(s: State<T>)
    requires Inv(s)
    ensures s.head in s.mem
    ensures s.mem[s.head].next.None? <==> Waiting(s) == [] || exists t: nat :: IsLinking(s, t, 0)
  {
    HeadIsChained(s);
    if |s.chain| > 1 {
      assert LinkOk(s, 0);
      if exists t: nat :: IsLinking(s, t, 0) {
        var t: nat :| IsLinking(s, t, 0);
        assert IsInLinking(s, t);
        var i := MissingLink(s, t);
        assert s.chain[i] == s.chain[0];
      }
    }
  }

  /** The value a producer has been let in with but not swapped in yet. */
  function Pending<T>(s: State<T>, t: nat): seq<T> {
    if t in s.inside && s.inside[t].Admitted? then [s.inside[t].value] else []
  }

  /** When the queue looks empty, everything that was let in has been taken if and only if no
      producer is inside enqueue. */
  lemma EmptyMeansDeliveredIff<T>(s: State<T>)
    requires Inv(s) && s.head in s.mem && s.mem[s.head].next.None?
    ensures s.out == s.order && (forall t: nat :: Pending(s, t) == []) <==> s.inside == map[]
  {
    EmptyIff(s);
    if s.inside != map[] {
      var t :| t in s.inside;
      if s.inside[t].Admitted? {
        assert Pending(s, t) != [];
      } else {
        assert IsInLinking(s, t);
        var i := MissingLink(s, t);
        assert i + 1 < |s.chain|;
      }
    }
  }

  ghost predicate EnabledRun<T>(s: State<T>, steps: seq<Step<T>>)
    decreases |steps|
  {
    steps != [] ==> Enabled(s, steps[0]) && (Safe(s, steps[0]) ==> EnabledRun(Next(s, steps[0]), steps[1..]))
  }

  /** Every step of the run, up to the first that would touch a freed node, touches none. */
  ghost predicate SafeRun<T>(s: State<T>, steps: seq<Step<T>>)
    requires EnabledRun(s, steps)
    decreases |steps|
  {
    steps != [] ==> Safe(s, steps[0]) && SafeRun(Next(s, steps[0]), steps[1..])
  }

  ghost function Run<T>(s: State<T>, steps: seq<Step<T>>): State<T>
    requires EnabledRun(s, steps) && SafeRun(s, steps)
    decreases |steps|
  {
    if steps == [] then s else Run(Next(s, steps[0]), steps[1..])
  }

  /**
   * Over every interleaving of any number of producers with the consumer: no step touches a freed
   * node, and the consumer gets the values in the order in which their nodes were swapped in, each
   * once, with none passed over.
   */
  lemma {:induction false} QueueIsFifo<T>(s: State<T>, steps: seq<Step<T>>)
    requires Inv(s) && EnabledRun(s, steps)
    ensures SafeRun(s, steps) && Inv(Run(s, steps))
    ensures var s' := Run(s, steps); s'.out <= s'.order && s.order <= s'.order && s.out <= s'.out
    decreases |steps|
  {
    if steps != [] {
      StepInv(s, steps[0]);
      StepExtends(s, steps[0]);
      QueueIsFifo(Next(s, steps[0]), steps[1..]);
    }
  }

  lemma StepExtends<T>(s: State<T>, step: Step<T>)
    requires Enabled(s, step) && Safe(s, step)
    ensures s.order <= Next(s, step).order && s.out <= Next(s, step).out
  {
  }

  // ---------------------------------------------------------------- what a producer can rely on

  datatype Tagged<T> = Tagged(producer: nat, value: T)

  function Values<T>(tagged: seq<Tagged<T>>): seq<T> {
    if tagged == [] then [] else [tagged[0].value] + Values(tagged[1..])
  }

  function By<T>(tagged: seq<Tagged<T>>, t: nat): seq<T> {
    if tagged == [] then []
    else (if tagged[0].producer == t then [tagged[0].value] else []) + By(tagged[1..], t)
  }

  /** What a step swaps in. */
  function SwapOf<T>(s: State<T>, step: Step<T>): seq<Tagged<T>>
    requires Enabled(s, step)
  {
    if step.Swap? then [Tagged(step.producer, s.inside[step.producer].value)] else []
  }

  /** The values swapped in during a run, each with its producer. */
  ghost function Swaps<T>(s: State<T>, steps: seq<Step<T>>): seq<Tagged<T>>
    requires EnabledRun(s, steps) && SafeRun(s, steps)
    decreases |steps|
  {
    if steps == [] then [] else SwapOf(s, steps[0]) + Swaps(Next(s, steps[0]), steps[1..])
  }

  /** The values a producer calls enqueue with, in order. */
  function CalledBy<T>(steps: seq<Step<T>>, t: nat): seq<T> {
    if steps == [] then []
    else (if steps[0].Enter? && steps[0].producer == t then [steps[0].value] else []) + CalledBy(steps[1..], t)
  }

  /** The steps before the queue is closed. */
  function WhileOpen<T>(steps: seq<Step<T>>): seq<Step<T>> {
    if steps == [] || steps[0].Close? then [] else [steps[0]] + WhileOpen(steps[1..])
  }

  function LetIn<T>(s: State<T>, steps: seq<Step<T>>, t: nat): seq<T> {
    if s.closed then [] else CalledBy(WhileOpen(steps), t)
  }

  lemma FirstBy<T>(x: Tagged<T>, a: seq<Tagged<T>>, t: nat)
    ensures By([x] + a, t) == (if x.producer == t then [x.value] else []) + By(a, t)
  {
    assert ([x] + a)[1..] == a;
  }

  lemma OneMoreBy<T>(x: Tagged<T>, a: seq<Tagged<T>>, b: seq<Tagged<T>>, t: nat)
    requires By(a + b, t) == By(a, t) + By(b, t)
    ensures By([x] + (a + b), t) == By([x] + a, t) + By(b, t)
  {
    FirstBy(x, a + b, t);
    FirstBy(x, a, t);
    Associates(if x.producer == t then [x.value] else [], By(a, t), By(b, t));
  }

  lemma {:induction false} JoinedBy<T>(a: seq<Tagged<T>>, b: seq<Tagged<T>>, t: nat)
    ensures By(a + b, t) == By(a, t) + By(b, t)
  {
    if a == [] {
      assert a + b == b;
    } else {
      JoinedBy(a[1..], b, t);
      OneMoreBy(a[0], a[1..], b, t);
      assert a == [a[0]] + a[1..] && a + b == [a[0]] + (a[1..] + b);
    }
  }

  lemma OneMoreValue<T>(x: Tagged<T>, a: seq<Tagged<T>>, b: seq<Tagged<T>>)
    requires Values(a + b) == Values(a) + Values(b)
    ensures Values([x] + (a + b)) == Values([x] + a) + Values(b)
  {
    assert ([x] + (a + b))[1..] == a + b && ([x] + a)[1..] == a;
    Associates([x.value], Values(a), Values(b));
  }

  lemma {:induction false} JoinedValues<T>(a: seq<Tagged<T>>, b: seq<Tagged<T>>)
    ensures |Values(a)| == |a| && Values(a + b) == Values(a) + Values(b)
  {
    if a == [] {
      assert a + b == b;
    } else {
      JoinedValues(a[1..], b);
      OneMoreValue(a[0], a[1..], b);
      assert a == [a[0]] + a[1..] && a + b == [a[0]] + (a[1..] + b);
    }
  }

  lemma {:induction false} SwapsAreTheOrder<T>(s: State<T>, steps: seq<Step<T>>)
    requires EnabledRun(s, steps) && SafeRun(s, steps)
    ensures Run(s, steps).order == s.order + Values(Swaps(s, steps))
    decreases |steps|
  {
    if steps != [] {
      var s', rest := Next(s, steps[0]), steps[1..];
      SwapsAreTheOrder(s', rest);
      JoinedValues(SwapOf(s, steps[0]), Swaps(s', rest));
      assert s'.order == s.order + Values(SwapOf(s, steps[0]));
    }
  }

  /** One step: what a producer had pending and is let in with is swapped in or pending. */
  lemma StepServes<T>(s: State<T>, step: Step<T>, t: nat)
    requires Enabled(s, step) && Safe(s, step)
    ensures Pending(s, t) + (if s.closed then [] else CalledBy([step], t))
         == By(SwapOf(s, step), t) + Pending(Next(s, step), t)
  {
    assert [step][1..] == [];
    assert step.Swap? ==> SwapOf(s, step)[1..] == [];
  }

  lemma Handover<T>(p: seq<T>, now: seq<T>, later: seq<T>, done: seq<T>, p': seq<T>, done': seq<T>, p'': seq<T>)
    requires p + now == done + p' && p' + later == done' + p''
    ensures p + (now + later) == (done + done') + p''
  {
    assert p + (now + later) == (p + now) + later == done + (p' + later) == (done + done') + p'';
  }

  lemma {:induction false} ServedInOrder<T>(s: State<T>, steps: seq<Step<T>>, t: nat)
    requires EnabledRun(s, steps) && SafeRun(s, steps)
    ensures Pending(s, t) + LetIn(s, steps, t) == By(Swaps(s, steps), t) + Pending(Run(s, steps), t)
    decreases |steps|
  {
    if steps != [] {
      var step, s', rest := steps[0], Next(s, steps[0]), steps[1..];
      var now := if s.closed then [] else CalledBy([step], t);
      StepServes(s, step, t);
      ServedInOrder(s', rest, t);
      JoinedBy(SwapOf(s, step), Swaps(s', rest), t);
      LetInOnward(s, steps, t);
      Handover(Pending(s, t), now, LetIn(s', rest, t), By(SwapOf(s, step), t), Pending(s', t),
               By(Swaps(s', rest), t), Pending(Run(s', rest), t));
    }
  }

  lemma LetInOnward<T>(s: State<T>, steps: seq<Step<T>>, t: nat)
    requires steps != [] && Enabled(s, steps[0]) && Safe(s, steps[0])
    ensures LetIn(s, steps, t)
         == (if s.closed then [] else CalledBy([steps[0]], t)) + LetIn(Next(s, steps[0]), steps[1..], t)
  {
    assert [steps[0]][1..] == [];
    if !s.closed && !steps[0].Close? {
      assert ([steps[0]] + WhileOpen(steps[1..]))[1..] == WhileOpen(steps[1..]);
    }
  }

  lemma TakenIsFront<T>(swaps: seq<Tagged<T>>, out: seq<T>, pending: seq<T>, called: seq<T>, t: nat)
    requires out <= Values(swaps) && called == By(swaps, t) + pending
    ensures |out| <= |swaps| && out == Values(swaps[..|out|])
    ensures By(swaps[..|out|], t) <= called
    ensures out == Values(swaps) && pending == [] ==> By(swaps[..|out|], t) == called
  {
    JoinedValues(swaps, []);
    var front, back := swaps[..|out|], swaps[|out|..];
    assert swaps == front + back;
    JoinedValues(front, back);
    JoinedBy(front, back, t);
    assert out == Values(swaps) ==> back == [];
  }

  /**
   * Over every run of a new queue: what the consumer has got from any one producer is the front of
   * what that producer called enqueue with before the queue was closed, in the producer's order;
   * and all of it once the queue looks empty with nobody inside.  Calls after the closing are
   * refused.
   */
  lemma ProducersKeepTheirOrder<T>(stub: nat, steps: seq<Step<T>>, t: nat)
    requires EnabledRun(Initial<T>(stub), steps)
    ensures SafeRun(Initial<T>(stub), steps)
    ensures var s, swaps := Run(Initial<T>(stub), steps), Swaps(Initial<T>(stub), steps);
      && |s.out| <= |swaps| && s.out == Values(swaps[..|s.out|])
      && By(swaps[..|s.out|], t) <= CalledBy(WhileOpen(steps), t)
      && s.head in s.mem
      && (s.mem[s.head].next.None? && s.inside == map[] ==> By(swaps[..|s.out|], t) == CalledBy(WhileOpen(steps), t))
  {
    var s0 := Initial<T>(stub);
    InitialInv<T>(stub);
    QueueIsFifo(s0, steps);
    SwapsAreTheOrder(s0, steps);
    ServedInOrder(s0, steps, t);
    var s := Run(s0, steps);
    TakenIsFront(Swaps(s0, steps), s.out, Pending(s, t), CalledBy(WhileOpen(steps), t), t);
    EmptyIff(s);
    if s.mem[s.head].next.None? && s.inside == map[] {
      EmptyMeansDeliveredIff(s);
    }
  }

  // ---------------------------------------------------------------- progress

  /** A producer that nobody interrupts gets its value in behind all others and is out again, unless the
      queue is closed, when nothing happens. */
  lemma EnqueueAppends<T>(s: State<T>, t: nat, v: T, n: nat)
    requires Inv(s) && t !in s.inside && n !in s.mem
    ensures s.closed ==> Next(s, Enter(t, v)) == s
    ensures !s.closed ==>
      var s1 := Next(s, Enter(t, v));
      && Enabled(s1, Swap(t, n))
      && var s2 := Next(s1, Swap(t, n));
      && Enabled(s2, Link(t)) && Safe(s2, Link(t))
      && var s3 := Next(s2, Link(t));
      && Inv(s3) && s3.order == s.order + [v] && s3.out == s.out && s3.inside == s.inside && !s3.closed
      && s3.tail == n && Waiting(s3) == Waiting(s) + [v]
  {
    if !s.closed {
      StepInv(s, Enter(t, v));
      var s1 := Next(s, Enter(t, v));
      StepInv(s1, Swap(t, n));
      var s2 := Next(s1, Swap(t, n));
      StepInv(s2, Link(t));
      assert s2.inside - {t} == s.inside;
    }
  }

  function Dequeues<T>(k: nat): seq<Step<T>> {
    if k == 0 then [] else [Dequeue] + Dequeues(k - 1)
  }

  /** With nobody inside, as many calls of dequeue as values are waiting take them all, in order, and one
      node is left. */
  lemma {:induction false} QueueEmpties<T>(s: State<T>, k: nat)
    requires Inv(s) && s.inside == map[] && |s.order| == |s.out| + k
    ensures EnabledRun(s, Dequeues(k)) && SafeRun(s, Dequeues(k))
    ensures var s' := Run(s, Dequeues(k));
      && Inv(s') && s'.out == s.order == s'.order && s'.inside == map[]
      && s'.chain == [s.tail] && s'.mem.Keys == {s.tail}
    decreases k
  {
    if k == 0 {
      assert s.chain == [s.tail];
      assert forall a :: a in s.mem <==> a in s.chain;
    } else {
      OneLess(s);
      QueueEmpties(Next(s, Dequeue), k - 1);
      assert Dequeues<T>(k)[1..] == Dequeues<T>(k - 1);
    }
  }

  lemma OneLess<T>(s: State<T>)
    requires Inv(s) && s.inside == map[] && |s.out| < |s.order|
    ensures Safe(s, Dequeue) && Inv(Next(s, Dequeue))
    ensures var s' := Next(s, Dequeue);
      s'.out == s.out + [s.order[|s.out|]] && s'.order == s.order && s'.inside == s.inside && s'.tail == s.tail
  {
    StepInv(s, Dequeue);
    EmptyIff(s);
    assert Waiting(s) != [];
    DequeueTakes(s);
  }

  // ---------------------------------------------------------------- the end of the log's writer

  /** The writer stops when it finds the queue empty after running has been cleared.  Until the queue
      is closed, a little later, and by producers already inside, values can still be put in. */
  ghost predicate WithoutWriter<T>(steps: seq<Step<T>>) {
    forall i | 0 <= i < |steps| :: !steps[i].Dequeue?
  }

  lemma {:induction false} NothingTaken<T>(s: State<T>, steps: seq<Step<T>>)
    requires EnabledRun(s, steps) && SafeRun(s, steps) && WithoutWriter(steps)
    ensures Run(s, steps).out == s.out
    decreases |steps|
  {
    if steps != [] {
      assert !steps[0].Dequeue?;
      NothingTaken(Next(s, steps[0]), steps[1..]);
    }
  }

  /**
   * What the writer leaves behind: once every producer is out of enqueue, everything let in has been
   * taken if and only if nobody was inside when the writer looked last, and nobody was let in after.
   */
  lemma WriterLosesNothingIff<T>(s: State<T>, later: seq<Step<T>>)
    requires Inv(s) && s.head in s.mem && s.mem[s.head].next.None?
    requires EnabledRun(s, later) && SafeRun(s, later) && WithoutWriter(later) && Run(s, later).inside == map[]
    ensures Run(s, later).out == Run(s, later).order <==> s.inside == map[] && forall t: nat :: LetIn(s, later, t) == []
  {
    var s', swaps := Run(s, later), Swaps(s, later);
    NothingTaken(s, later);
    SwapsAreTheOrder(s, later);
    JoinedValues(swaps, []);
    EmptyMeansDeliveredIff(s);
    forall t: nat
      ensures Pending(s, t) + LetIn(s, later, t) == By(swaps, t)
    {
      ServedInOrder(s, later, t);
      assert Pending(s', t) == [];
    }
    if s'.out == s'.order {
      assert |Values(swaps)| == 0;
      forall t: nat
        ensures Pending(s, t) == [] && LetIn(s, later, t) == []
      {
        assert By(swaps, t) == [];
      }
    }
    assert swaps != [] ==> By(swaps, swaps[0].producer) != [];
  }
}
