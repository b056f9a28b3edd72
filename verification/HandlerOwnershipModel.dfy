/**
 * Who owns the type-erased targets of any_completion_handler.  A target is an impl, numbered in
 * order of creation; every obtaining and release of its storage, every construction, destruction
 * and invocation is logged.  A wrapper is its two pointers: the function table, which stands for
 * the handler type it was built for, and the impl.
 */
module HandlerOwnershipModel {
  import opened Bytes

  datatype Kind = Obtained | Constructed | Destroyed | Released | Invoked

  datatype Event = Event(kind: Kind, impl: nat)

  /** The impls alive, with the handler type each was built for, and everything that happened. */
  datatype Heap = Heap(live: map<nat, nat>, next: nat, log: seq<Event>)

  datatype Wrapper = Wrapper(table: Option<nat>, impl: Option<nat>)

  const EMPTY: Wrapper := Wrapper(None, None)

  // ---------------------------------------------------------------- what happens to impls

  function Happened(h: Heap, kind: Kind, i: nat): Heap {
    h.(log := h.log + [Event(kind, i)])
  }

  /** An impl's constructor, in storage already obtained. */
  function Built(h: Heap, i: nat, handlerType: nat): Heap {
    Happened(h, Constructed, i).(live := h.live[i := handlerType])
  }

  /** create: the storage is given back if the constructor throws. */
  function Create(h: Heap, handlerType: nat, succeeds: bool): (Heap, Option<nat>) {
    var i := h.next;
    var h' := Happened(h.(next := i + 1), Obtained, i);
    if succeeds then (Built(h', i, handlerType), Some(i)) else (Happened(h', Released, i), None)
  }

  function DestroyImpl(h: Heap, i: nat): Heap {
    Happened(Happened(h.(live := h.live - {i}), Destroyed, i), Released, i)
  }

  /** call: the handler is moved out, its impl given up, and only then invoked; if the move throws
      the impl is given up all the same. */
  function CallImpl(h: Heap, i: nat, moves: bool): Heap {
    if moves then Happened(DestroyImpl(h, i), Invoked, i) else DestroyImpl(h, i)
  }

  /** The destructor of a wrapper. */
  function Finish(h: Heap, w: Wrapper): Heap {
    if w.impl.Some? then DestroyImpl(h, w.impl.value) else h
  }

  // ---------------------------------------------------------------- sets of wrappers

  /** All wrappers in existence, under arbitrary names. */
  datatype World = World(wrappers: map<nat, Wrapper>, heap: Heap)

  datatype Op =
    | Default(w: nat)
    | FromHandler(w: nat, handlerType: nat, succeeds: bool)
    | MoveConstruct(w: nat, from: nat)
    | MoveAssign(w: nat, from: nat)
    | AssignNull(w: nat)
    | Swap(w: nat, v: nat)
    | Call(w: nat, moves: bool)
    | Destroy(w: nat)

  /** The usual rules of object lifetime. */
  predicate Callable(s: World, op: Op) {
    match op
    case Default(w) => w !in s.wrappers
    case FromHandler(w, _, _) => w !in s.wrappers
    case MoveConstruct(w, from) => w !in s.wrappers && from in s.wrappers
    case MoveAssign(w, from) => w in s.wrappers && from in s.wrappers
    case AssignNull(w) => w in s.wrappers
    case Swap(w, v) => w in s.wrappers && v in s.wrappers
    case Call(w, _) => w in s.wrappers
    case Destroy(w) => w in s.wrappers
  }

  function Step(s: World, op: Op): World
    requires Callable(s, op)
  {
    var ws := s.wrappers;
    match op
    case Default(w) => s.(wrappers := ws[w := EMPTY])
    case FromHandler(w, handlerType, succeeds) =>
      var (h, i) := Create(s.heap, handlerType, succeeds);
      if i.Some? then World(ws[w := Wrapper(Some(handlerType), i)], h) else s.(heap := h)
    case MoveConstruct(w, from) => s.(wrappers := ws[w := ws[from]][from := EMPTY])
    case MoveAssign(w, from) =>
      if w == from then s else World(ws[w := ws[from]][from := EMPTY], Finish(s.heap, ws[w]))
    case AssignNull(w) => World(ws[w := EMPTY], Finish(s.heap, ws[w]))
    case Swap(w, v) => s.(wrappers := ws[w := ws[v]][v := ws[w]])
    case Call(w, moves) =>
      if ws[w].impl.None? then s   // std::bad_function_call
      else World(ws[w := ws[w].(impl := None)], CallImpl(s.heap, ws[w].impl.value, moves))
    case Destroy(w) => World(ws - {w}, Finish(s.heap, ws[w]))
  }

  // ---------------------------------------------------------------- the invariant

  /** What happened to one impl, in order. */
  function LifeOf(log: seq<Event>, i: nat): seq<Kind> {
    if log == [] then []
    else
      var last := log[|log| - 1];
      LifeOf(log[..|log| - 1], i) + if last.impl == i then [last.kind] else []
  }

  const ALIVE: seq<Kind> := [Obtained, Constructed]
  const NEVER_BUILT: seq<Kind> := [Obtained, Released]
  const DROPPED: seq<Kind> := [Obtained, Constructed, Destroyed, Released]
  const CALLED: seq<Kind> := [Obtained, Constructed, Destroyed, Released, Invoked]

  predicate LifeFits(h: Heap, i: nat) {
    var life := LifeOf(h.log, i);
    if i in h.live then life == ALIVE
    else if i < h.next then life == NEVER_BUILT || life == DROPPED || life == CALLED
    else life == []
  }

  predicate Owns(s: World, w: nat, i: nat) {
    w in s.wrappers && s.wrappers[w].impl == Some(i)
  }

  ghost predicate Owned(s: World, i: nat) {
    exists w: nat :: Owns(s, w, i)
  }

  /**
   * Every impl has had a proper life so far; every live impl has exactly one owner, whose function
   * table is the one for the impl's handler type; and no wrapper points at anything else.
   */
  ghost predicate Sound(s: World) {
    && (forall i: nat {:trigger LifeFits(s.heap, i)} :: LifeFits(s.heap, i))
    && (forall i {:trigger Owned(s, i)} | i in s.heap.live :: i < s.heap.next && Owned(s, i))
    && (forall w: nat, i: nat | Owns(s, w, i) :: i in s.heap.live && s.wrappers[w].table == Some(s.heap.live[i]))
    && (forall w: nat, v: nat, i: nat | Owns(s, w, i) && Owns(s, v, i) :: w == v)
  }

  lemma LifeGrows(log: seq<Event>, e: Event, i: nat)
    ensures LifeOf(log + [e], i) == LifeOf(log, i) + if e.impl == i then [e.kind] else []
  {
    assert (log + [e])[..|log|] == log;
  }

  lemma CreateLives(h: Heap, handlerType: nat, succeeds: bool)
    requires forall i: nat :: LifeFits(h, i)
    requires forall i | i in h.live :: i < h.next
    ensures forall i: nat :: LifeFits(Create(h, handlerType, succeeds).0, i)
  {
    forall i: nat
      ensures LifeFits(Create(h, handlerType, succeeds).0, i)
    {
      assert LifeFits(h, i);
      var second := if succeeds then Constructed else Released;
      LifeGrows(h.log, Event(Obtained, h.next), i);
      LifeGrows(h.log + [Event(Obtained, h.next)], Event(second, h.next), i);
      assert [] + [Obtained] + [second] == if succeeds then ALIVE else NEVER_BUILT;
      assert LifeOf(h.log, i) + [] + [] == LifeOf(h.log, i);
    }
  }

  lemma CallLives(h: Heap, k: nat, moves: bool)
    requires forall i: nat :: LifeFits(h, i)
    requires k in h.live && k < h.next
    ensures forall i: nat :: LifeFits(DestroyImpl(h, k), i) && LifeFits(CallImpl(h, k, moves), i)
  {
    forall i: nat
      ensures LifeFits(DestroyImpl(h, k), i) && LifeFits(CallImpl(h, k, moves), i)
    {
      assert LifeFits(h, i);
      LifeGrows(h.log, Event(Destroyed, k), i);
      LifeGrows(h.log + [Event(Destroyed, k)], Event(Released, k), i);
      LifeGrows(DestroyImpl(h, k).log, Event(Invoked, k), i);
      assert ALIVE + [Destroyed] + [Released] == DROPPED && DROPPED + [Invoked] == CALLED;
      assert LifeOf(h.log, i) + [] + [] == LifeOf(h.log, i);
    }
  }

  /** A wrapper without impl comes into existence, or takes the place of another such. */
  lemma EmptySound(s: World, w: nat, e: Wrapper)
    requires Sound(s) && e.impl.None? && (w in s.wrappers ==> s.wrappers[w].impl.None?)
    ensures Sound(s.(wrappers := s.wrappers[w := e]))
  {
    var s' := s.(wrappers := s.wrappers[w := e]);
    assert forall x: nat, i: nat :: Owns(s', x, i) <==> Owns(s, x, i);
    forall i | i in s'.heap.live ensures i < s'.heap.next && Owned(s', i) {
      assert Owned(s, i);
      var x: nat :| Owns(s, x, i);
      assert Owns(s', x, i);
    }
  }

  lemma RemoveEmptySound(s: World, w: nat)
    requires Sound(s) && w in s.wrappers && s.wrappers[w].impl.None?
    ensures Sound(s.(wrappers := s.wrappers - {w}))
  {
    var s' := s.(wrappers := s.wrappers - {w});
    assert forall x: nat, i: nat :: Owns(s', x, i) <==> Owns(s, x, i);
    forall i | i in s'.heap.live ensures i < s'.heap.next && Owned(s', i) {
      assert Owned(s, i);
      var x: nat :| Owns(s, x, i);
      assert Owns(s', x, i);
    }
  }

  lemma SwapSound(s: World, w: nat, v: nat)
    requires Sound(s) && w in s.wrappers && v in s.wrappers
    ensures Sound(s.(wrappers := s.wrappers[w := s.wrappers[v]][v := s.wrappers[w]]))
  {
    var s' := s.(wrappers := s.wrappers[w := s.wrappers[v]][v := s.wrappers[w]]);
    assert forall x: nat, i: nat :: Owns(s', x, i) <==> Owns(s, Swapped(w, v, x), i);
    forall i | i in s'.heap.live ensures i < s'.heap.next && Owned(s', i) {
      assert Owned(s, i);
      var x: nat :| Owns(s, x, i);
      assert Owns(s', Swapped(w, v, x), i);
    }
    forall x: nat, y: nat, i: nat | Owns(s', x, i) && Owns(s', y, i) ensures x == y {
      assert Owns(s, Swapped(w, v, x), i) && Owns(s, Swapped(w, v, y), i);
    }
  }

  function Swapped(w: nat, v: nat, x: nat): nat {
    if x == w then v else if x == v then w else x
  }

  /** The owner of an impl gives it up, by its destructor or by a call. */
  lemma GiveUpSound(s: World, w: nat, table: Option<nat>, called: bool, moves: bool)
    requires Sound(s) && w in s.wrappers && s.wrappers[w].impl.Some?
    ensures var i := s.wrappers[w].impl.value;
      Sound(World(s.wrappers[w := Wrapper(table, None)],
                  if called then CallImpl(s.heap, i, moves) else DestroyImpl(s.heap, i)))
  {
    var k := s.wrappers[w].impl.value;
    var s' := World(s.wrappers[w := Wrapper(table, None)],
                    if called then CallImpl(s.heap, k, moves) else DestroyImpl(s.heap, k));
    assert Owns(s, w, k);
    assert Owned(s, k);
    CallLives(s.heap, k, moves);
    assert forall x: nat, i: nat :: Owns(s', x, i) <==> Owns(s, x, i) && x != w;
    forall i | i in s'.heap.live ensures i < s'.heap.next && Owned(s', i) {
      assert Owned(s, i);
      var x: nat :| Owns(s, x, i);
      assert Owns(s', x, i);
    }
  }

  lemma CreateSound(s: World, w: nat, handlerType: nat, succeeds: bool)
    requires Sound(s) && w !in s.wrappers
    ensures Sound(Step(s, FromHandler(w, handlerType, succeeds)))
  {
    var s', n := Step(s, FromHandler(w, handlerType, succeeds)), s.heap.next;
    forall i | i in s.heap.live ensures i < n { assert Owned(s, i); }
    CreateLives(s.heap, handlerType, succeeds);
    assert LifeFits(s.heap, n);
    assert forall x: nat, i: nat :: Owns(s', x, i) <==> Owns(s, x, i) || (succeeds && x == w && i == n);
    forall i | i in s'.heap.live ensures i < s'.heap.next && Owned(s', i) {
      if i == n {
        assert Owns(s', w, i);
      } else {
        assert Owned(s, i);
        var x: nat :| Owns(s, x, i);
        assert Owns(s', x, i);
      }
    }
  }

  lemma FinishSound(s: World, w: nat)
    requires Sound(s) && w in s.wrappers
    ensures Sound(World(s.wrappers[w := EMPTY], Finish(s.heap, s.wrappers[w])))
  {
    if s.wrappers[w].impl.Some? {
      GiveUpSound(s, w, None, false, false);
    } else {
      EmptySound(s, w, EMPTY);
    }
  }

  lemma StepSound(s: World, op: Op)
    requires Sound(s) && Callable(s, op)
    ensures Sound(Step(s, op))
  {
    var ws := s.wrappers;
    match op
    case Default(w) => EmptySound(s, w, EMPTY);
    case FromHandler(w, handlerType, succeeds) => CreateSound(s, w, handlerType, succeeds);
    case MoveConstruct(w, from) =>
      EmptySound(s, w, EMPTY);
      SwapSound(s.(wrappers := ws[w := EMPTY]), w, from);
      assert ws[w := EMPTY][w := ws[from]][from := EMPTY] == ws[w := ws[from]][from := EMPTY];
    case MoveAssign(w, from) =>
      if w != from {
        FinishSound(s, w);
        SwapSound(World(ws[w := EMPTY], Finish(s.heap, ws[w])), w, from);
        assert ws[w := EMPTY][w := ws[from]][from := EMPTY] == ws[w := ws[from]][from := EMPTY];
      }
    case AssignNull(w) => FinishSound(s, w);
    case Swap(w, v) => SwapSound(s, w, v);
    case Call(w, moves) => if ws[w].impl.Some? { GiveUpSound(s, w, ws[w].table, true, moves); }
    case Destroy(w) =>
      FinishSound(s, w);
      RemoveEmptySound(World(ws[w := EMPTY], Finish(s.heap, ws[w])), w);
      assert ws[w := EMPTY] - {w} == ws - {w};
  }

  // ---------------------------------------------------------------- whole runs

  predicate CallableRun(s: World, ops: seq<Op>)
    decreases |ops|
  {
    ops != [] ==> Callable(s, ops[0]) && CallableRun(Step(s, ops[0]), ops[1..])
  }

  function Run(s: World, ops: seq<Op>): World
    requires CallableRun(s, ops)
    decreases |ops|
  {
    if ops == [] then s else Run(Step(s, ops[0]), ops[1..])
  }

  lemma {:induction false} RunSound(s: World, ops: seq<Op>)
    requires Sound(s) && CallableRun(s, ops)
    ensures Sound(Run(s, ops))
    decreases |ops|
  {
    if ops != [] {
      StepSound(s, ops[0]);
      RunSound(Step(s, ops[0]), ops[1..]);
    }
  }

  const NOTHING: World := World(map[], Heap(map[], 0, []))

  lemma NothingIsSound()
    ensures Sound(NOTHING)
  {
    forall i: nat
      ensures LifeFits(NOTHING.heap, i)
    {
    }
  }

  /**
   * Over every run of constructions, moves (onto oneself too), assignments, swaps, calls and
   * destructions from nothing: each live impl has exactly one owner; every other impl that was
   * ever begun has been released exactly once, after its destruction if it was built, and was
   * invoked at most once and only after its storage was released; and when no wrapper is left,
   * no impl is.
   */
  lemma EveryTargetFreedOnce(ops: seq<Op>)
    requires CallableRun(NOTHING, ops)
    ensures var s := Run(NOTHING, ops);
      && Sound(s)
      && (s.wrappers == map[] ==> s.heap.live == map[])
      && forall i: nat | i < s.heap.next && i !in s.heap.live ::
           var life := LifeOf(s.heap.log, i); life == NEVER_BUILT || life == DROPPED || life == CALLED
  {
    NothingIsSound();
    RunSound(NOTHING, ops);
    var s := Run(NOTHING, ops);
    forall i | i in s.heap.live
      ensures s.wrappers != map[]
    {
      assert Owned(s, i);
    }
    assert forall i: nat | i < s.heap.next && i !in s.heap.live :: LifeFits(s.heap, i);
  }

  // ---------------------------------------------------------------- what each step does to an impl

  /** What happens to an impl in a step: whoever owns it decides, by being called, destroyed, or given
      something else to own; and it is built, if it can be, from the handler it is for. */
  function EventsOf(s: World, op: Op, i: nat): seq<Kind> {
    match op
    case FromHandler(_, _, succeeds) =>
      if i != s.heap.next then [] else if succeeds then [Obtained, Constructed] else [Obtained, Released]
    case Call(w, moves) =>
      if !Owns(s, w, i) then [] else if moves then [Destroyed, Released, Invoked] else [Destroyed, Released]
    case MoveAssign(w, from) => if Owns(s, w, i) && w != from then [Destroyed, Released] else []
    case AssignNull(w) => if Owns(s, w, i) then [Destroyed, Released] else []
    case Destroy(w) => if Owns(s, w, i) then [Destroyed, Released] else []
    case _ => []
  }

  lemma FinishGrows(h: Heap, w: Wrapper, i: nat)
    ensures LifeOf(Finish(h, w).log, i) == LifeOf(h.log, i) + if w.impl == Some(i) then [Destroyed, Released] else []
  {
    if w.impl.Some? {
      var k := w.impl.value;
      LifeGrows(h.log, Event(Destroyed, k), i);
      LifeGrows(h.log + [Event(Destroyed, k)], Event(Released, k), i);
    }
    assert LifeOf(h.log, i) + [Destroyed] + [Released] == LifeOf(h.log, i) + [Destroyed, Released];
    assert LifeOf(h.log, i) + [] + [] == LifeOf(h.log, i);
  }

  lemma CreateGrows(h: Heap, handlerType: nat, succeeds: bool, i: nat)
    ensures LifeOf(Create(h, handlerType, succeeds).0.log, i)
         == LifeOf(h.log, i) + (if i != h.next then []
                                else if succeeds then [Obtained, Constructed] else [Obtained, Released])
  {
    var second := if succeeds then Constructed else Released;
    LifeGrows(h.log, Event(Obtained, h.next), i);
    LifeGrows(h.log + [Event(Obtained, h.next)], Event(second, h.next), i);
    assert LifeOf(h.log, i) + [Obtained] + [second] == LifeOf(h.log, i) + [Obtained, second];
    assert LifeOf(h.log, i) + [] + [] == LifeOf(h.log, i);
  }

  /** Calling through a wrapper that owns an impl: destroyed, released, and then, if its handler could be
      moved out, invoked. */
  lemma CallGrows(h: Heap, k: nat, moves: bool, i: nat)
    ensures LifeOf(CallImpl(h, k, moves).log, i)
         == LifeOf(h.log, i) + (if k != i then []
                                else if moves then [Destroyed, Released, Invoked] else [Destroyed, Released])
  {
    var before, ended := LifeOf(h.log, i), LifeOf(DestroyImpl(h, k).log, i);
    FinishGrows(h, Wrapper(None, Some(k)), i);
    if moves {
      LifeGrows(DestroyImpl(h, k).log, Event(Invoked, k), i);
      assert k == i ==> ended + [Invoked] == before + [Destroyed, Released, Invoked];
      assert ended + [] == ended;
    }
  }

  /** A step does to an impl what it says above, and nothing else. */
  lemma LivesAreExact(s: World, op: Op, i: nat)
    requires Callable(s, op)
    ensures LifeOf(Step(s, op).heap.log, i) == LifeOf(s.heap.log, i) + EventsOf(s, op, i)
  {
    assert LifeOf(s.heap.log, i) + [] == LifeOf(s.heap.log, i);
    match op
    case FromHandler(_, handlerType, succeeds) => CreateGrows(s.heap, handlerType, succeeds, i);
    case Call(w, moves) => if s.wrappers[w].impl.Some? { CallGrows(s.heap, s.wrappers[w].impl.value, moves, i); }
    case MoveAssign(w, from) => FinishGrows(s.heap, s.wrappers[w], i);
    case AssignNull(w) => FinishGrows(s.heap, s.wrappers[w], i);
    case Destroy(w) => FinishGrows(s.heap, s.wrappers[w], i);
    case _ =>
  }

  /** Who owned, before a step, what x owns after it; nobody if that is new or nothing. */
  function Predecessor(op: Op, x: nat): Option<nat> {
    match op
    case Default(w) => if x == w then None else Some(x)
    case FromHandler(w, _, succeeds) => if x == w && succeeds then None else Some(x)
    case MoveConstruct(w, from) => if x == w then Some(from) else if x == from then None else Some(x)
    case MoveAssign(w, from) =>
      if w == from then Some(x) else if x == w then Some(from) else if x == from then None else Some(x)
    case AssignNull(w) => if x == w then None else Some(x)
    case Swap(w, v) => Some(Swapped(w, v, x))
    case Call(w, _) => if x == w then None else Some(x)
    case Destroy(w) => if x == w then None else Some(x)
  }

  /** Ownership moves as the operation says: what a wrapper owns afterwards is what its predecessor
      owned before, or has just been built for it. */
  lemma OwnersAreExact(s: World, op: Op, x: nat, i: nat)
    requires Callable(s, op)
    ensures Owns(Step(s, op), x, i) <==>
      || (Predecessor(op, x).Some? && Owns(s, Predecessor(op, x).value, i))
      || (op.FromHandler? && op.succeeds && x == op.w && i == s.heap.next)
    ensures x in Step(s, op).wrappers <==>
      || (x in s.wrappers && !(op.Destroy? && x == op.w))
      || ((op.Default? || op.MoveConstruct? || (op.FromHandler? && op.succeeds)) && x == op.w)
  {
  }

  /** A called wrapper's impl has been destroyed and released and, if its handler could be moved out,
      invoked after that; one whose wrapper goes, or gets another or none, is not invoked. */
  lemma OwnedLifeEnds(s: World, w: nat, i: nat)
    requires Sound(s) && Owns(s, w, i)
    ensures LifeOf(Step(s, Call(w, true)).heap.log, i) == CALLED
    ensures LifeOf(Step(s, Call(w, false)).heap.log, i) == DROPPED
    ensures LifeOf(Step(s, Destroy(w)).heap.log, i) == DROPPED && LifeOf(Step(s, AssignNull(w)).heap.log, i) == DROPPED
    ensures forall from | from in s.wrappers && from != w :: LifeOf(Step(s, MoveAssign(w, from)).heap.log, i) == DROPPED
  {
    assert LifeFits(s.heap, i);
    assert ALIVE + [Destroyed, Released] == DROPPED && ALIVE + [Destroyed, Released, Invoked] == CALLED;
    LivesAreExact(s, Call(w, true), i);
    LivesAreExact(s, Call(w, false), i);
    LivesAreExact(s, Destroy(w), i);
    LivesAreExact(s, AssignNull(w), i);
    forall from | from in s.wrappers && from != w
      ensures LifeOf(Step(s, MoveAssign(w, from)).heap.log, i) == DROPPED
    {
      LivesAreExact(s, MoveAssign(w, from), i);
    }
  }

  /** Some call in the run that could move the handler out found its wrapper owning the impl. */
  predicate IsCalled(s: World, ops: seq<Op>, i: nat)
    requires CallableRun(s, ops)
    decreases |ops|
  {
    ops != [] &&
    ((ops[0].Call? && ops[0].moves && Owns(s, ops[0].w, i)) || IsCalled(Step(s, ops[0]), ops[1..], i))
  }

  lemma CalledInStep(s: World, op: Op, i: nat)
    requires Sound(s) && Callable(s, op)
    ensures LifeOf(Step(s, op).heap.log, i) == CALLED
      <==> LifeOf(s.heap.log, i) == CALLED || (op.Call? && op.moves && Owns(s, op.w, i))
  {
    LivesAreExact(s, op, i);
    assert LifeFits(s.heap, i) && LifeFits(Step(s, op).heap, i) by { StepSound(s, op); }
    assert ALIVE + [Destroyed, Released] == DROPPED && ALIVE + [Destroyed, Released, Invoked] == CALLED;
    if LifeOf(s.heap.log, i) == CALLED {
      NotOwned(s, op, i);
    }
  }

  /** What does not live is nobody's, and what has been begun is not begun again. */
  lemma NotOwned(s: World, op: Op, i: nat)
    requires Sound(s) && LifeOf(s.heap.log, i) == CALLED
    ensures EventsOf(s, op, i) == []
  {
    assert LifeFits(s.heap, i);
    assert |ALIVE| != |CALLED| && i !in s.heap.live && i < s.heap.next;
  }

  /** Over every run from nothing: a handler is invoked, once and after its storage was released, exactly
      if some call that could move it out was made through a wrapper that owned it then. */
  lemma InvokedIffCalled(ops: seq<Op>, i: nat)
    requires CallableRun(NOTHING, ops)
    ensures LifeOf(Run(NOTHING, ops).heap.log, i) == CALLED <==> IsCalled(NOTHING, ops, i)
    ensures Invoked in LifeOf(Run(NOTHING, ops).heap.log, i) <==> IsCalled(NOTHING, ops, i)
  {
    NothingIsSound();
    CalledSince(NOTHING, ops, i);
    RunSound(NOTHING, ops);
    assert LifeFits(Run(NOTHING, ops).heap, i);
    assert CALLED[4] == Invoked;
  }

  lemma {:induction false} CalledSince(s: World, ops: seq<Op>, i: nat)
    requires Sound(s) && CallableRun(s, ops)
    ensures LifeOf(Run(s, ops).heap.log, i) == CALLED <==> LifeOf(s.heap.log, i) == CALLED || IsCalled(s, ops, i)
    decreases |ops|
  {
    if ops != [] {
      StepSound(s, ops[0]);
      CalledInStep(s, ops[0], i);
      CalledSince(Step(s, ops[0]), ops[1..], i);
    }
  }

  /** A wrapper with an impl has a function table; after a call it has a table without an impl. */
  lemma TableOutlivesImpl(s: World, w: nat, moves: bool)
    requires Sound(s) && w in s.wrappers && s.wrappers[w].impl.Some?
    ensures s.wrappers[w].table.Some?
    ensures var w' := Step(s, Call(w, moves)).wrappers[w]; w'.table.Some? && w'.impl.None?
  {
    assert Owns(s, w, s.wrappers[w].impl.value);
  }

  /** A second call finds the wrapper empty and changes nothing. */
  lemma SecondCallDoesNothing(s: World, w: nat, moves: bool, again: bool)
    requires w in s.wrappers
    ensures var s' := Step(s, Call(w, moves)); Step(s', Call(w, again)) == s'
  {
  }
}
