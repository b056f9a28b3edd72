/** any_completion_handler as an object with two pointers, over a heap of type-erased impls. */
module HandlerOwnerships {
  import opened Bytes
  import M = HandlerOwnershipModel

  class ImplHeap {
    var live: map<nat, nat>
    var next: nat
    var log: seq<M.Event>

    ghost function Value(): M.Heap
      reads this
    {
      M.Heap(live, next, log)
    }

    constructor ()
      ensures Value() == M.NOTHING.heap
    {
      live, next, log := map[], 0, [];
    }

    method Happen(kind: M.Kind, i: nat)
      modifies this`log
      ensures log == old(log) + [M.Event(kind, i)]
    {
      log := log + [M.Event(kind, i)];
    }

    /** The constructor of an impl in storage already obtained; it may throw. */
    method Construct(i: nat, handlerType: nat, succeeds: bool)
      modifies this`log, this`live
      ensures Value() == if succeeds then M.Built(old(Value()), i, handlerType) else old(Value())
    {
      if succeeds {
        Happen(M.Constructed, i);
        live := live[i := handlerType];
      }
    }

    /** create: a guard holds the raw storage while the constructor runs, and lets go of it if that
        does not throw. */
    method Create(handlerType: nat, succeeds: bool) returns (impl: Option<nat>)
      modifies this
      ensures (Value(), impl) == M.Create(old(Value()), handlerType, succeeds)
    {
      var i := next;
      next := next + 1;
      Happen(M.Obtained, i);
      var uninit := new Guard(this, Deallocates, i);
      Construct(i, handlerType, succeeds);
      impl := None;
      if succeeds {
        uninit.Release();
        impl := Some(i);
      }
      uninit.Reset();
    }

    /** destroy: the deleter destroys, then deallocates. */
    method Destroy(i: nat)
      modifies this
      ensures Value() == M.DestroyImpl(old(Value()), i)
    {
      Happen(M.Destroyed, i);
      live := live - {i};
      Happen(M.Released, i);
    }

    /** call: a guard holds the impl while the handler is moved to a local, which may throw; then it
        gives the impl up, and the handler is invoked last. */
    method Call(i: nat, moves: bool)
      modifies this
      ensures Value() == M.CallImpl(old(Value()), i, moves)
    {
      var ptr := new Guard(this, Destroys, i);
      if moves {
        ptr.Reset();
        Happen(M.Invoked, i);
      }
      ptr.Reset();
    }
  }

  datatype Deleter = Deallocates | Destroys

  /** std::unique_ptr over an impl; its destructor is a Reset at the end of its scope. */
  class Guard {
    const heap: ImplHeap
    const deleter: Deleter
    var held: Option<nat>

    constructor (heap: ImplHeap, deleter: Deleter, i: nat)
      ensures this.heap == heap && this.deleter == deleter && held == Some(i)
    {
      this.heap, this.deleter, held := heap, deleter, Some(i);
    }

    method Release()
      modifies this
      ensures held == None
    {
      held := None;
    }

    method Reset()
      modifies this, heap
      ensures held == None
      ensures heap.Value() == match old(held)
        case None => old(heap.Value())
        case Some(i) =>
          if deleter.Destroys? then M.DestroyImpl(old(heap.Value()), i)
          else M.Happened(old(heap.Value()), M.Released, i)
    {
      if held.Some? {
        if deleter.Destroys? {
          heap.Destroy(held.value);
        } else {
          heap.Happen(M.Released, held.value);
        }
      }
      held := None;
    }
  }

  class AnyCompletionHandler {
    const heap: ImplHeap
    var table: Option<nat>
    var impl: Option<nat>

    ghost function Value(): M.Wrapper
      reads this
    {
      M.Wrapper(table, impl)
    }

    /** Default and nullptr construction. */
    constructor Null(heap: ImplHeap)
      ensures this.heap == heap && Value() == M.EMPTY
    {
      this.heap, table, impl := heap, None, None;
    }

    /** Construction around an impl that create returned. */
    constructor Holding(heap: ImplHeap, handlerType: nat, i: nat)
      ensures this.heap == heap && Value() == M.Wrapper(Some(handlerType), Some(i))
    {
      this.heap, table, impl := heap, Some(handlerType), Some(i);
    }

    /** Construction from a handler: no wrapper results if create throws. */
    static method FromHandler(heap: ImplHeap, handlerType: nat, succeeds: bool) returns (w: AnyCompletionHandler?)
      modifies heap
      ensures heap.Value() == M.Create(old(heap.Value()), handlerType, succeeds).0
      ensures w != null <==> succeeds
      ensures w != null ==>
        && fresh(w) && w.heap == heap
        && w.Value() == M.Wrapper(Some(handlerType), M.Create(old(heap.Value()), handlerType, succeeds).1)
    {
      var i := heap.Create(handlerType, succeeds);
      if i.None? {
        return null;
      }
      w := new AnyCompletionHandler.Holding(heap, handlerType, i.value);
    }

    constructor Move(other: AnyCompletionHandler)
      modifies other
      ensures heap == other.heap && Value() == old(other.Value()) && other.Value() == M.EMPTY
    {
      heap, table, impl := other.heap, other.table, other.impl;
      new;
      other.table := None;
      other.impl := None;
    }

    method Swap(other: AnyCompletionHandler)
      requires other.heap == heap
      modifies this, other
      ensures Value() == old(other.Value()) && other.Value() == old(Value())
    {
      var t := table;
      table := other.table;
      other.table := t;
      var i := impl;
      impl := other.impl;
      other.impl := i;
    }

    /** The destructor. */
    method Destruct()
      modifies heap
      ensures heap.Value() == M.Finish(old(heap.Value()), Value())
    {
      if impl.Some? {
        heap.Destroy(impl.value);
      }
    }

    /** Move assignment, by way of a temporary that takes other's pointers and leaves with ours. */
    method Assign(other: AnyCompletionHandler)
      requires other.heap == heap
      modifies this, other, heap
      ensures this == other ==> Value() == old(Value()) && heap.Value() == old(heap.Value())
      ensures this != other ==>
        && Value() == old(other.Value()) && other.Value() == M.EMPTY
        && heap.Value() == M.Finish(old(heap.Value()), old(Value()))
    {
      var tmp := new AnyCompletionHandler.Move(other);
      tmp.Swap(this);
      tmp.Destruct();
    }

    method AssignNull()
      modifies this, heap
      ensures Value() == M.EMPTY && heap.Value() == M.Finish(old(heap.Value()), old(Value()))
    {
      var tmp := new AnyCompletionHandler.Null(heap);
      tmp.Swap(this);
      tmp.Destruct();
    }

    /** The function call operator; it throws std::bad_function_call if there is no target. */
    method Call(moves: bool) returns (threw: bool)
      modifies this, heap
      ensures threw <==> old(impl).None?
      ensures threw ==> Value() == old(Value()) && heap.Value() == old(heap.Value())
      ensures !threw ==>
        && Value() == old(Value()).(impl := None)
        && heap.Value() == M.CallImpl(old(heap.Value()), old(impl).value, moves)
    {
      if impl.None? {
        return true;
      }
      var i := impl.value;
      impl := None;
      heap.Call(i, moves);
      threw := false;
    }
  }

  /** A program's wrappers under names, all over one heap. */
  class Program {
    const heap: ImplHeap
    var objects: map<nat, AnyCompletionHandler>

    ghost predicate Valid()
      reads this, objects.Values
    {
      && (forall n | n in objects :: objects[n].heap == heap)
      && (forall n, m | n in objects && m in objects && n != m :: objects[n] != objects[m])
    }

    ghost function World(): M.World
      reads this, objects.Values, heap
    {
      M.World(map n: nat | n in objects :: objects[n].Value(), heap.Value())
    }

    constructor ()
      ensures Valid() && World() == M.NOTHING && fresh(heap)
    {
      heap := new ImplHeap();
      objects := map[];
    }

    // Whatever a program does with its wrappers changes the world as the model's step says.

    method Default(w: nat)
      requires Valid() && M.Callable(World(), M.Default(w))
      modifies this, objects.Values, heap
      ensures Valid() && World() == M.Step(old(World()), M.Default(w))
    {
      ghost var ws: map<nat, M.Wrapper> := World().wrappers;
      var o := new AnyCompletionHandler.Null(heap);
      objects := objects[w := o];
      assert World().wrappers == ws[w := M.EMPTY];
    }

    method FromHandler(w: nat, handlerType: nat, succeeds: bool)
      requires Valid() && M.Callable(World(), M.FromHandler(w, handlerType, succeeds))
      modifies this, objects.Values, heap
      ensures Valid() && World() == M.Step(old(World()), M.FromHandler(w, handlerType, succeeds))
    {
      ghost var ws: map<nat, M.Wrapper> := World().wrappers;
      var o := AnyCompletionHandler.FromHandler(heap, handlerType, succeeds);
      if o != null {
        objects := objects[w := o];
        assert World().wrappers == ws[w := o.Value()];
      } else {
        assert World().wrappers == ws;
      }
    }

    method MoveConstruct(w: nat, from: nat)
      requires Valid() && M.Callable(World(), M.MoveConstruct(w, from))
      modifies this, objects.Values, heap
      ensures Valid() && World() == M.Step(old(World()), M.MoveConstruct(w, from))
    {
      ghost var ws: map<nat, M.Wrapper> := World().wrappers;
      var o := new AnyCompletionHandler.Move(objects[from]);
      objects := objects[w := o];
      assert World().wrappers == ws[w := ws[from]][from := M.EMPTY];
    }

    method MoveAssign(w: nat, from: nat)
      requires Valid() && M.Callable(World(), M.MoveAssign(w, from))
      modifies this, objects.Values, heap
      ensures Valid() && World() == M.Step(old(World()), M.MoveAssign(w, from))
    {
      ghost var ws: map<nat, M.Wrapper> := World().wrappers;
      objects[w].Assign(objects[from]);
      assert World().wrappers == if w == from then ws else ws[w := ws[from]][from := M.EMPTY];
    }

    method AssignNull(w: nat)
      requires Valid() && M.Callable(World(), M.AssignNull(w))
      modifies this, objects.Values, heap
      ensures Valid() && World() == M.Step(old(World()), M.AssignNull(w))
    {
      ghost var ws: map<nat, M.Wrapper> := World().wrappers;
      objects[w].AssignNull();
      assert World().wrappers == ws[w := M.EMPTY];
    }

    method Swap(w: nat, v: nat)
      requires Valid() && M.Callable(World(), M.Swap(w, v))
      modifies this, objects.Values, heap
      ensures Valid() && World() == M.Step(old(World()), M.Swap(w, v))
    {
      ghost var ws: map<nat, M.Wrapper> := World().wrappers;
      objects[w].Swap(objects[v]);
      assert World().wrappers == ws[w := ws[v]][v := ws[w]];
    }

    method Call(w: nat, moves: bool)
      requires Valid() && M.Callable(World(), M.Call(w, moves))
      modifies this, objects.Values, heap
      ensures Valid() && World() == M.Step(old(World()), M.Call(w, moves))
    {
      ghost var ws: map<nat, M.Wrapper> := World().wrappers;
      var _ := objects[w].Call(moves);
      assert World().wrappers == ws[w := ws[w].(impl := None)];
    }

    method Destroy(w: nat)
      requires Valid() && M.Callable(World(), M.Destroy(w))
      modifies this, objects.Values, heap
      ensures Valid() && World() == M.Step(old(World()), M.Destroy(w))
    {
      ghost var ws: map<nat, M.Wrapper> := World().wrappers;
      objects[w].Destruct();
      objects := objects - {w};
      assert World().wrappers == ws - {w};
    }
  }
}
