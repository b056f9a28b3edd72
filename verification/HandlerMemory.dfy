/** allocate and deallocate of any_completion_handler_impl over a byte array, in place. */
module HandlerMemories {
  import opened Bytes
  import M = HandlerMemoryModel

  class HandlerMemory {
    const mem: array<Byte>
    ghost var blocks: map<nat, M.Block>
    ghost var raw: map<nat, nat>

    ghost function State(): M.State
      reads this, mem
    {
      M.State(mem[..], blocks, raw)
    }

    constructor (size: nat)
      ensures M.Intact(State()) && fresh(mem)
      ensures mem.Length == size && blocks == map[] && raw == map[]
    {
      mem, blocks, raw := new Byte[size](_ => 0), map[], map[];
    }

    /** std::memcpy of a 64-bit value to an address. */
    method StoreWord(at: nat, n: nat)
      requires at + M.WORD <= mem.Length
      modifies mem
      ensures mem[..] == Patched(old(mem[..]), at, Encode(n, old(mem[at..at + M.WORD])))
    {
      var w := Encode(n, mem[at..at + M.WORD]);
      forall i | 0 <= i < |w| {
        mem[at + i] := w[i];
      }
    }

    /** allocate(size, align), where base is what the underlying allocator answers.  No result
        stands for std::bad_alloc. */
    method Allocate(size: nat, align: nat, base: nat) returns (p: Option<nat>)
      requires 0 < align <= SIZE_MAX && size <= SIZE_MAX && 0 < base
      requires var q := M.Align(align, size, base, M.Space(size, align));
        q.Some? ==> q.value + size + M.WORD <= mem.Length
      modifies this, mem
      ensures (State(), p) == M.Allocate(old(State()), size, align, base)
    {
      var space := M.WrapSize(size + align - 1);
      var length := M.WrapSize(space + M.WORD);
      raw := raw[base := length];
      p := M.Align(align, size, base, space);
      if p.Some? {
        M.AlignUpIsLeastMultiple(base, align);
        var off := p.value - base;
        blocks := blocks[p.value := M.Block(base, length, size, align)];
        StoreWord(p.value + size, off);
      }
    }

    /** deallocate(p, size, align): what goes back to the underlying allocator, if p is not null. */
    method Deallocate(p: nat, size: nat, align: nat) returns (back: Option<(int, nat)>)
      requires M.Intact(State())
      requires p != 0 ==> p in blocks && blocks[p].size == size && blocks[p].align == align
      modifies this
      ensures M.Intact(State())
      ensures p == 0 ==> back.None? && State() == old(State())
      ensures p != 0 ==>
        var base := old(blocks)[p].base;
        && base in old(raw) && back == Some((base, old(raw)[base]))
        && State() == old(State()).(blocks := old(blocks) - {p}, raw := old(raw) - {base})
    {
      if p == 0 {
        return None;
      }
      M.RecoveryIsExact(State(), p);
      M.DeallocateIntact(State(), p);
      ghost var after := M.Deallocate(State(), p);
      var off := Decode(mem[p + size..p + size + M.WORD]);
      var base := p - off;
      back := Some((base, M.WrapSize(M.WrapSize(size + align - 1) + M.WORD)));
      blocks, raw := blocks - {p}, raw - {base};
      assert State() == after;
    }
  }
}
