/**
 * The over-aligning allocator of any_completion_handler_impl as a value model.  Memory is a
 * sequence of bytes indexed by address, address 0 being null.  A raw block comes from an underlying
 * allocator that may place it anywhere it does not meet another raw block; where it starts is
 * remembered only in eight bytes stored right behind the client's bytes.
 */
module HandlerMemoryModel {
  import opened Bytes

  const WORD: int := 8

  function WrapSize(n: nat): nat { n % (SIZE_MAX + 1) }

  /** The smallest multiple of align that is not below base. */
  function AlignUp(base: nat, align: nat): (p: nat)
    requires align > 0
  {
    (base + align - 1) / align * align
  }

  lemma AlignUpIsLeastMultiple(base: nat, align: nat)
    requires align > 0
    ensures var p := AlignUp(base, align); base <= p < base + align && p % align == 0
  {
    var q := (base + align - 1) / align;
    assert base + align - 1 == align * q + (base + align - 1) % align;
    assert q * align == align * q;
    RemainderIsUnique(q * align, align, q, 0);
  }

  function Space(size: nat, align: nat): nat
    requires align > 0
  {
    WrapSize(size + align - 1)
  }

  /** What is asked of the underlying allocator, as the 64-bit arithmetic yields it. */
  function RawLength(size: nat, align: nat): nat
    requires align > 0
  {
    WrapSize(Space(size, align) + WORD)
  }

  /** std::align: the adjusted pointer, or nothing if the bytes no longer fit in the space. */
  function Align(align: nat, size: nat, base: nat, space: nat): Option<nat>
    requires align > 0
  {
    var p := AlignUp(base, align);
    if p - base + size <= space then Some(p) else None
  }

  /** The request is small enough for the size arithmetic not to wrap. */
  predicate Reasonable(size: nat, align: nat) {
    size + align - 1 + WORD <= SIZE_MAX
  }

  lemma ReasonableLength(size: nat, align: nat)
    requires 0 < align && Reasonable(size, align)
    ensures Space(size, align) == size + align - 1
    ensures RawLength(size, align) == size + align - 1 + WORD
  {
    RemainderIsUnique(size + align - 1, SIZE_MAX + 1, 0, size + align - 1);
    RemainderIsUnique(size + align - 1 + WORD, SIZE_MAX + 1, 0, size + align - 1 + WORD);
  }

  /** For every base the underlying allocator may choose: the aligned client bytes and the word
      behind them lie inside the raw block if and only if the size arithmetic does not wrap.  The
      align call notices only the wrap of the first sum, not one brought about by the word. */
  lemma GeometryIffNoWrap(size: nat, align: nat, base: nat)
    requires 0 < align <= SIZE_MAX && size <= SIZE_MAX
    ensures var p := Align(align, size, base, Space(size, align));
      Reasonable(size, align) <==>
        p.Some? && base <= p.value && p.value + size + WORD <= base + RawLength(size, align)
    ensures Reasonable(size, align) ==>
      var p := Align(align, size, base, Space(size, align));
      p.Some? && p.value % align == 0 && 0 <= p.value - base <= align - 1
    ensures Align(align, size, base, Space(size, align)).None? <==> size + align - 1 > SIZE_MAX
  {
    AlignUpIsLeastMultiple(base, align);
    var sum := size + align - 1;
    if sum <= SIZE_MAX {
      RemainderIsUnique(sum, SIZE_MAX + 1, 0, sum);
      if sum + WORD > SIZE_MAX {
        RemainderIsUnique(sum + WORD, SIZE_MAX + 1, 1, sum + WORD - (SIZE_MAX + 1));
      } else {
        RemainderIsUnique(sum + WORD, SIZE_MAX + 1, 0, sum + WORD);
      }
    } else {
      RemainderIsUnique(sum, SIZE_MAX + 1, 1, sum - (SIZE_MAX + 1));
    }
  }

  // ---------------------------------------------------------------- state and operations

  datatype Block = Block(base: nat, length: nat, size: nat, align: nat)

  /** Memory, the client blocks by their pointers, and the raw blocks the underlying allocator
      has handed out and not had back, by their bases. */
  datatype State = State(mem: seq<Byte>, blocks: map<nat, Block>, raw: map<nat, nat>)

  predicate Apart(b: nat, m: nat, c: nat, n: nat) {
    b + m <= c || c + n <= b
  }

  /** Where the underlying allocator may put a raw block. */
  ghost predicate Placeable(s: State, base: nat, length: nat) {
    && 0 < base && base + length <= |s.mem|
    && base !in s.raw
    && forall b | b in s.raw :: Apart(b, s.raw[b], base, length)
  }

  /** allocate(size, align) when the underlying allocator answers base. */
  function Allocate(s: State, size: nat, align: nat, base: nat): (State, Option<nat>)
    requires align > 0
    requires var p := Align(align, size, base, Space(size, align));
      p.Some? ==> p.value + size + WORD <= |s.mem|
  {
    var length := RawLength(size, align);
    var raw := s.raw[base := length];
    match Align(align, size, base, Space(size, align))
    case None => (s.(raw := raw), None)
    case Some(p) =>
      var at := p + size;
      (State(Patched(s.mem, at, Encode(p - base, s.mem[at..at + WORD])),
             s.blocks[p := Block(base, length, size, align)], raw), Some(p))
  }

  /** What deallocate(p, size, align) passes to the underlying allocator. */
  function Recovered(mem: seq<Byte>, p: nat, size: nat, align: nat): (int, nat)
    requires align > 0 && p + size + WORD <= |mem|
  {
    (p - Decode(mem[p + size..p + size + WORD]), RawLength(size, align))
  }

  function Deallocate(s: State, p: nat): State
    requires p in s.blocks && s.blocks[p].align > 0 && p + s.blocks[p].size + WORD <= |s.mem|
  {
    var b := s.blocks[p];
    var (base, _) := Recovered(s.mem, p, b.size, b.align);
    s.(blocks := s.blocks - {p}, raw := map r | r in s.raw && r != base :: s.raw[r])
  }

  // ---------------------------------------------------------------- the invariant

  /** A client block lies, with the word behind it, inside the raw block it came from. */
  ghost predicate BlockLaid(s: State, p: nat)
    requires p in s.blocks
  {
    var b := s.blocks[p];
    && b.align > 0 && Reasonable(b.size, b.align)
    && b.length == b.size + b.align - 1 + WORD
    && b.base in s.raw && s.raw[b.base] == b.length
    && 0 < b.base <= p < b.base + b.align
    && b.base + b.length <= |s.mem|
  }

  /** Some client block lives in the raw block. */
  ghost predicate Owned(s: State, r: nat) {
    exists p :: p in s.blocks && s.blocks[p].base == r
  }

  ghost predicate Separate(s: State, r: nat, t: nat)
    requires r in s.raw && t in s.raw
  {
    Apart(r, s.raw[r], t, s.raw[t])
  }

  ghost predicate Laid(s: State) {
    && (forall p {:trigger BlockLaid(s, p)} | p in s.blocks :: BlockLaid(s, p))
    && (forall p, q | p in s.blocks && q in s.blocks && p != q :: s.blocks[p].base != s.blocks[q].base)
    && (forall r {:trigger Owned(s, r)} | r in s.raw :: Owned(s, r))
    && (forall r, t {:trigger Separate(s, r, t)} | r in s.raw && t in s.raw && r != t :: Separate(s, r, t))
  }

  /** The word behind the client's bytes says how far the pointer is from the raw block's base. */
  ghost predicate WordIntact(s: State, p: nat)
    requires p in s.blocks
  {
    var at := p + s.blocks[p].size;
    && at + WORD <= |s.mem|
    && Decode(s.mem[at..at + WORD]) == p - s.blocks[p].base
  }

  ghost predicate Intact(s: State) {
    && Laid(s)
    && forall p {:trigger WordIntact(s, p)} | p in s.blocks :: WordIntact(s, p)
  }

  lemma WordRoundTrip(n: nat, slot: seq<Byte>)
    requires n <= SIZE_MAX && |slot| == WORD
    ensures Decode(Encode(n, slot)) == n
  {
    DecodeEncode(n, slot);
    WordSpan();
    RemainderIsUnique(n, SIZE_MAX + 1, 0, n);
  }

  lemma WordSpan()
    ensures Pow256(WORD) == SIZE_MAX + 1
  {
    assert Pow256(4) == 256 * Pow256(3) == 256 * 256 * Pow256(2) == 0x1_0000_0000;
    assert Pow256(8) == 256 * Pow256(7) == 256 * 256 * Pow256(6) == 256 * 256 * 256 * Pow256(5);
  }

  /** Every deallocate recovers exactly the base and length the underlying allocator handed out. */
  lemma RecoveryIsExact(s: State, p: nat)
    requires Intact(s) && p in s.blocks
    ensures var b := s.blocks[p];
      && b.align > 0 && p + b.size + WORD <= |s.mem|
      && b.base in s.raw && Recovered(s.mem, p, b.size, b.align) == (b.base, s.raw[b.base])
  {
    assert BlockLaid(s, p) && WordIntact(s, p);
    ReasonableLength(s.blocks[p].size, s.blocks[p].align);
  }

  // ---------------------------------------------------------------- what each operation keeps

  /** A store into one section leaves any section it does not meet alone. */
  lemma PatchElsewhere(mem: seq<Byte>, at: nat, bs: seq<Byte>, from: nat, to: nat)
    requires at + |bs| <= |mem| && from <= to <= |mem|
    requires to <= at || at + |bs| <= from
    ensures Patched(mem, at, bs)[from..to] == mem[from..to]
  {
  }

  lemma PatchHere(mem: seq<Byte>, at: nat, bs: seq<Byte>)
    requires at + |bs| <= |mem|
    ensures Patched(mem, at, bs)[at..at + |bs|] == bs
  {
  }

  /** Two client blocks never meet, words included. */
  lemma ClientsApart(s: State, p: nat, q: nat)
    requires Laid(s) && p in s.blocks && q in s.blocks && p != q
    ensures p + s.blocks[p].size + WORD <= q || q + s.blocks[q].size + WORD <= p
  {
    assert BlockLaid(s, p) && BlockLaid(s, q);
    assert Separate(s, s.blocks[p].base, s.blocks[q].base);
  }

  /** A new raw block is clear of every client block, words included. */
  lemma PlacedApart(s: State, base: nat, length: nat, q: nat)
    requires Laid(s) && Placeable(s, base, length) && q in s.blocks
    ensures var c := s.blocks[q];
      c.base != base && (q + c.size + WORD <= base || base + length <= q)
  {
    assert BlockLaid(s, q);
    assert Apart(s.blocks[q].base, s.raw[s.blocks[q].base], base, length);
  }

  /** Adding a client block in a new raw block keeps the layout. */
  lemma LaidWhenAdded(s: State, p: nat, b: Block)
    requires Laid(s) && Placeable(s, b.base, b.length) && p !in s.blocks
    requires b.align > 0 && Reasonable(b.size, b.align) && b.length == b.size + b.align - 1 + WORD
    requires b.base <= p < b.base + b.align
    ensures Laid(s.(blocks := s.blocks[p := b], raw := s.raw[b.base := b.length]))
  {
    var s' := s.(blocks := s.blocks[p := b], raw := s.raw[b.base := b.length]);
    forall q | q in s'.blocks
      ensures BlockLaid(s', q) && (q != p ==> s'.blocks[q].base != b.base)
    {
      if q != p {
        assert BlockLaid(s, q);
        PlacedApart(s, b.base, b.length, q);
      }
    }
    forall r | r in s'.raw
      ensures Owned(s', r)
    {
      if r == b.base {
        assert s'.blocks[p].base == r;
      } else {
        assert Owned(s, r);
        var q :| q in s.blocks && s.blocks[q].base == r;
        assert q in s'.blocks && s'.blocks[q].base == r;
      }
    }
    forall r, t | r in s'.raw && t in s'.raw && r != t
      ensures Separate(s', r, t)
    {
      assert r != b.base && t != b.base ==> Separate(s, r, t);
    }
  }

  /** A reasonable request gets an aligned pointer, with its distance from the base stored behind
      the client's bytes. */
  lemma AllocateShape(s: State, size: nat, align: nat, base: nat)
    requires 0 < align && Reasonable(size, align) && base + RawLength(size, align) <= |s.mem|
    ensures var p := AlignUp(base, align);
      && Align(align, size, base, Space(size, align)) == Some(p)
      && base <= p < base + align && p % align == 0 && p + size + WORD <= |s.mem|
    ensures var p := AlignUp(base, align);
      var at, b := p + size, Block(base, size + align - 1 + WORD, size, align);
      Allocate(s, size, align, base)
        == (State(Patched(s.mem, at, Encode(p - base, s.mem[at..at + WORD])), s.blocks[p := b],
                  s.raw[base := b.length]),
            Some(p))
  {
    GeometryIffNoWrap(size, align, base);
    ReasonableLength(size, align);
    AlignUpIsLeastMultiple(base, align);
  }

  lemma AllocateIntact(s: State, size: nat, align: nat, base: nat)
    requires Intact(s) && 0 < align && Reasonable(size, align)
    requires Placeable(s, base, RawLength(size, align))
    ensures var p := Align(align, size, base, Space(size, align));
      p.Some? && p.value + size + WORD <= |s.mem| && p.value !in s.blocks && p.value % align == 0
    ensures var (s', p) := Allocate(s, size, align, base);
      Intact(s') && p.Some? && s'.blocks.Keys == s.blocks.Keys + {p.value}
  {
    AllocateShape(s, size, align, base);
    ReasonableLength(size, align);
    var p, b := AlignUp(base, align), Block(base, size + align - 1 + WORD, size, align);
    PointerIsNew(s, p, base, b.length);
    var slot := s.mem[p + size..p + size + WORD];
    WordRoundTrip(p - base, slot);
    AllocatedIntact(s, p, b, Encode(p - base, slot));
  }

  lemma AllocatedIntact(s: State, p: nat, b: Block, word: seq<Byte>)
    requires Intact(s) && Placeable(s, b.base, b.length) && p !in s.blocks
    requires b.align > 0 && Reasonable(b.size, b.align) && b.length == b.size + b.align - 1 + WORD
    requires b.base <= p < b.base + b.align
    requires |word| == WORD && Decode(word) == p - b.base
    ensures Intact(State(Patched(s.mem, p + b.size, word), s.blocks[p := b], s.raw[b.base := b.length]))
  {
    AllocatedWords(s, p, b, word);
    LaidWhenAdded(s, p, b);
    LaidForAnyContents(s.(blocks := s.blocks[p := b], raw := s.raw[b.base := b.length]),
                       Patched(s.mem, p + b.size, word));
  }

  lemma PointerIsNew(s: State, p: nat, base: nat, length: nat)
    requires Laid(s) && Placeable(s, base, length) && base <= p < base + length
    ensures p !in s.blocks
  {
    if p in s.blocks {
      PlacedApart(s, base, length, p);
    }
  }

  lemma AllocatedWords(s: State, p: nat, b: Block, word: seq<Byte>)
    requires Intact(s) && Placeable(s, b.base, b.length) && p !in s.blocks
    requires b.base <= p && p + b.size + WORD <= b.base + b.length
    requires |word| == WORD && Decode(word) == p - b.base
    ensures var s' := State(Patched(s.mem, p + b.size, word), s.blocks[p := b], s.raw[b.base := b.length]);
      forall q | q in s'.blocks :: WordIntact(s', q)
  {
    var s' := State(Patched(s.mem, p + b.size, word), s.blocks[p := b], s.raw[b.base := b.length]);
    NewWordStands(s', s.mem, p, word);
    forall q | q in s.blocks && q != p
      ensures WordIntact(s', q)
    {
      OldWordStays(s, b.base, b.length, p + b.size, word, q, s');
    }
  }

  lemma NewWordStands(s: State, mem: seq<Byte>, p: nat, word: seq<Byte>)
    requires p in s.blocks && p + s.blocks[p].size + WORD <= |mem| && |word| == WORD
    requires s.mem == Patched(mem, p + s.blocks[p].size, word) && Decode(word) == p - s.blocks[p].base
    ensures WordIntact(s, p)
  {
    PatchHere(mem, p + s.blocks[p].size, word);
    WordStays(s, p, word);
  }

  lemma OldWordStays(s: State, base: nat, length: nat, at: nat, bs: seq<Byte>, q: nat, s': State)
    requires Intact(s) && Placeable(s, base, length) && q in s.blocks
    requires base <= at && at + |bs| <= base + length
    requires s'.mem == Patched(s.mem, at, bs) && q in s'.blocks && s'.blocks[q] == s.blocks[q]
    ensures WordIntact(s', q)
  {
    assert WordIntact(s, q);
    PlacedApart(s, base, length, q);
    var from := q + s.blocks[q].size;
    PatchElsewhere(s.mem, at, bs, from, from + WORD);
    WordStays(s', q, s.mem[from..from + WORD]);
  }

  lemma WordStays(s: State, q: nat, w: seq<Byte>)
    requires q in s.blocks && q + s.blocks[q].size + WORD <= |s.mem|
    requires s.mem[q + s.blocks[q].size..q + s.blocks[q].size + WORD] == w
    requires Decode(w) == q - s.blocks[q].base
    ensures WordIntact(s, q)
  {
  }

  lemma LaidForAnyContents(s: State, mem: seq<Byte>)
    requires Laid(s) && |mem| == |s.mem|
    ensures Laid(s.(mem := mem))
  {
    var s' := s.(mem := mem);
    forall p | p in s'.blocks ensures BlockLaid(s', p) { assert BlockLaid(s, p); }
    forall r | r in s'.raw ensures Owned(s', r) {
      assert Owned(s, r);
      var p :| p in s.blocks && s.blocks[p].base == r;
      assert p in s'.blocks && s'.blocks[p].base == r;
    }
    forall r, t | r in s'.raw && t in s'.raw && r != t ensures Separate(s', r, t) { assert Separate(s, r, t); }
  }

  /** The client stores bytes inside its own block. */
  function Store(s: State, p: nat, off: nat, bs: seq<Byte>): State
    requires p + off + |bs| <= |s.mem|
  {
    s.(mem := Patched(s.mem, p + off, bs))
  }

  lemma StoreIntact(s: State, p: nat, off: nat, bs: seq<Byte>)
    requires Intact(s) && p in s.blocks && off + |bs| <= s.blocks[p].size
    ensures p + off + |bs| <= |s.mem|
    ensures Intact(Store(s, p, off, bs))
  {
    assert BlockLaid(s, p);
    var s' := Store(s, p, off, bs);
    LaidForAnyContents(s, s'.mem);
    forall q | q in s'.blocks
      ensures WordIntact(s', q)
    {
      StoredWordStays(s, p, off, bs, q);
    }
  }

  lemma StoredWordStays(s: State, p: nat, off: nat, bs: seq<Byte>, q: nat)
    requires Intact(s) && p in s.blocks && off + |bs| <= s.blocks[p].size && p + off + |bs| <= |s.mem|
    requires q in s.blocks
    ensures WordIntact(Store(s, p, off, bs), q)
  {
    assert WordIntact(s, q);
    if q != p {
      ClientsApart(s, p, q);
    }
    var at := q + s.blocks[q].size;
    PatchElsewhere(s.mem, p + off, bs, at, at + WORD);
    WordStays(Store(s, p, off, bs), q, s.mem[at..at + WORD]);
  }

  lemma DeallocateIntact(s: State, p: nat)
    requires Intact(s) && p in s.blocks
    ensures s.blocks[p].align > 0 && p + s.blocks[p].size + WORD <= |s.mem|
    ensures Intact(Deallocate(s, p))
  {
    RecoveryIsExact(s, p);
    var s' := Deallocate(s, p);
    forall q | q in s'.blocks
      ensures BlockLaid(s', q) && WordIntact(s', q)
    {
      assert BlockLaid(s, q) && WordIntact(s, q);
    }
    forall r | r in s'.raw
      ensures Owned(s', r)
    {
      assert Owned(s, r);
      var q :| q in s.blocks && s.blocks[q].base == r;
      assert q in s'.blocks && s'.blocks[q].base == r;
    }
    forall r, t | r in s'.raw && t in s'.raw && r != t
      ensures Separate(s', r, t)
    {
      assert Separate(s, r, t);
    }
  }

  // ---------------------------------------------------------------- whole runs

  datatype Op =
    | AllocateOp(size: nat, align: nat, base: nat)
    | StoreOp(p: nat, off: nat, bs: seq<Byte>)
    | DeallocateOp(p: nat)

  /** Clients stay inside their blocks and give back what they were given; the underlying allocator
      answers with memory that is free; requests are small enough for the arithmetic. */
  ghost predicate Admissible(s: State, op: Op) {
    match op
    case AllocateOp(size, align, base) =>
      0 < align && Reasonable(size, align) && Placeable(s, base, RawLength(size, align))
    case StoreOp(p, off, bs) => p in s.blocks && off + |bs| <= s.blocks[p].size
    case DeallocateOp(p) => p in s.blocks
  }

  ghost function Step(s: State, op: Op): State
    requires Intact(s) && Admissible(s, op)
  {
    match op
    case AllocateOp(size, align, base) => AllocateIntact(s, size, align, base); Allocate(s, size, align, base).0
    case StoreOp(p, off, bs) => StoreIntact(s, p, off, bs); Store(s, p, off, bs)
    case DeallocateOp(p) => DeallocateIntact(s, p); Deallocate(s, p)
  }

  /** What a step hands to the underlying allocator is a pair it has out. */
  ghost predicate GivesBackWhatIsOut(s: State, op: Op) {
    op.DeallocateOp? && op.p in s.blocks ==>
      var b := s.blocks[op.p];
      && b.align > 0 && op.p + b.size + WORD <= |s.mem|
      && var (base, length) := Recovered(s.mem, op.p, b.size, b.align);
         base == b.base && base in s.raw && s.raw[base] == length
  }

  /** s leads to s' by admissible steps that all give back what is out. */
  ghost predicate Leads(s: State, ops: seq<Op>, s': State)
    decreases |ops|
  {
    if ops == [] then s == s'
    else Intact(s) && Admissible(s, ops[0]) && GivesBackWhatIsOut(s, ops[0]) && Leads(Step(s, ops[0]), ops[1..], s')
  }

  ghost predicate AdmissibleRun(s: State, ops: seq<Op>)
    decreases |ops|
  {
    ops != [] ==> Intact(s) && Admissible(s, ops[0]) && AdmissibleRun(Step(s, ops[0]), ops[1..])
  }

  ghost function Run(s: State, ops: seq<Op>): State
    requires AdmissibleRun(s, ops)
    decreases |ops|
  {
    if ops == [] then s else Run(Step(s, ops[0]), ops[1..])
  }

  lemma StepIntact(s: State, op: Op)
    requires Intact(s) && Admissible(s, op)
    ensures Intact(Step(s, op)) && GivesBackWhatIsOut(s, op)
  {
    match op
    case AllocateOp(size, align, base) => AllocateIntact(s, size, align, base);
    case StoreOp(p, off, bs) => StoreIntact(s, p, off, bs);
    case DeallocateOp(p) => DeallocateIntact(s, p); RecoveryIsExact(s, p);
  }

  /**
   * Over every admissible run, however the underlying allocator places its blocks and whatever the
   * clients store in theirs: each deallocate returns exactly the pair that was handed out for its
   * block, and once no client block is left nothing is left with the underlying allocator either.
   */
  lemma {:induction false} AllRawBlocksComeBack(s: State, ops: seq<Op>)
    requires Intact(s) && AdmissibleRun(s, ops)
    ensures Leads(s, ops, Run(s, ops)) && Intact(Run(s, ops))
    ensures Run(s, ops).blocks == map[] ==> Run(s, ops).raw == map[]
    decreases |ops|
  {
    if ops == [] {
      NothingLeft(s);
    } else {
      StepIntact(s, ops[0]);
      AllRawBlocksComeBack(Step(s, ops[0]), ops[1..]);
    }
  }

  /** What the client has in its block. */
  function Payload(s: State, q: nat): seq<Byte>
    requires q in s.blocks && q + s.blocks[q].size <= |s.mem|
  {
    s.mem[q..q + s.blocks[q].size]
  }

  lemma PayloadInMemory(s: State, q: nat)
    requires Intact(s) && q in s.blocks
    ensures q + s.blocks[q].size <= |s.mem|
  {
    assert BlockLaid(s, q);
  }

  lemma AllocateKeepsPayload(s: State, size: nat, align: nat, base: nat, q: nat)
    requires Intact(s) && Admissible(s, AllocateOp(size, align, base)) && q in s.blocks
    ensures q + s.blocks[q].size <= |s.mem|
    ensures var s' := Step(s, AllocateOp(size, align, base));
      |s'.mem| == |s.mem| && q in s'.blocks && s'.blocks[q] == s.blocks[q] && Payload(s', q) == Payload(s, q)
  {
    PayloadInMemory(s, q);
    AllocateShape(s, size, align, base);
    ReasonableLength(size, align);
    var p := AlignUp(base, align);
    PointerIsNew(s, p, base, RawLength(size, align));
    PlacedApart(s, base, RawLength(size, align), q);
    PatchElsewhere(s.mem, p + size, Encode(p - base, s.mem[p + size..p + size + WORD]), q, q + s.blocks[q].size);
  }

  lemma StoreElsewhere(s: State, p: nat, off: nat, bs: seq<Byte>, q: nat)
    requires Intact(s) && p in s.blocks && off + |bs| <= s.blocks[p].size && q in s.blocks && p != q
    ensures p + off + |bs| <= |s.mem| && q + s.blocks[q].size <= |s.mem|
    ensures Payload(Store(s, p, off, bs), q) == Payload(s, q)
  {
    PayloadInMemory(s, q);
    PayloadInMemory(s, p);
    ClientsApart(s, p, q);
    PatchElsewhere(s.mem, p + off, bs, q, q + s.blocks[q].size);
  }

  lemma StoreHere(s: State, q: nat, off: nat, bs: seq<Byte>)
    requires Intact(s) && q in s.blocks && off + |bs| <= s.blocks[q].size
    ensures q + s.blocks[q].size <= |s.mem|
    ensures Payload(Store(s, q, off, bs), q) == Patched(Payload(s, q), off, bs)
  {
    PayloadInMemory(s, q);
    PatchInside(s.mem, q, q + s.blocks[q].size, off, bs);
  }

  lemma StoreKeepsPayload(s: State, p: nat, off: nat, bs: seq<Byte>, q: nat)
    requires Intact(s) && Admissible(s, StoreOp(p, off, bs)) && q in s.blocks
    ensures q + s.blocks[q].size <= |s.mem|
    ensures var s' := Step(s, StoreOp(p, off, bs));
      |s'.mem| == |s.mem| && s'.blocks == s.blocks
      && Payload(s', q) == if p == q then Patched(Payload(s, q), off, bs) else Payload(s, q)
  {
    if p == q {
      StoreHere(s, q, off, bs);
    } else {
      StoreElsewhere(s, p, off, bs, q);
    }
  }

  /** What an operation makes of the block q, as its client sees it. */
  function AsClientSees(payload: seq<Byte>, op: Op, q: nat): seq<Byte> {
    if op.StoreOp? && op.p == q && op.off + |op.bs| <= |payload| then Patched(payload, op.off, op.bs) else payload
  }

  lemma PayloadKept(s: State, op: Op, q: nat)
    requires Intact(s) && Admissible(s, op) && q in s.blocks && op != DeallocateOp(q)
    ensures q + s.blocks[q].size <= |s.mem| == |Step(s, op).mem|
    ensures var s' := Step(s, op);
      q in s'.blocks && s'.blocks[q] == s.blocks[q] && Payload(s', q) == AsClientSees(Payload(s, q), op, q)
  {
    match op
    case AllocateOp(size, align, base) => AllocateKeepsPayload(s, size, align, base, q);
    case StoreOp(p, off, bs) => StoreKeepsPayload(s, p, off, bs, q);
    case DeallocateOp(p) => PayloadInMemory(s, q); RecoveryIsExact(s, p);
  }

  lemma PatchInside(mem: seq<Byte>, from: nat, to: nat, off: nat, bs: seq<Byte>)
    requires from + off + |bs| <= to <= |mem|
    ensures Patched(mem, from + off, bs)[from..to] == Patched(mem[from..to], off, bs)
  {
  }

  /** What a client's own stores make of its block. */
  function Written(payload: seq<Byte>, ops: seq<Op>, q: nat): seq<Byte>
    decreases |ops|
  {
    if ops == [] then payload else Written(AsClientSees(payload, ops[0], q), ops[1..], q)
  }

  /** Over every admissible run in which a block is not given back, it holds exactly what its client
      stored in it: neither other clients nor the words of other blocks get in. */
  lemma {:induction false} BlocksHoldWhatWasStored(s: State, ops: seq<Op>, q: nat)
    requires Intact(s) && AdmissibleRun(s, ops) && q in s.blocks
    requires DeallocateOp(q) !in ops
    ensures q + s.blocks[q].size <= |s.mem| == |Run(s, ops).mem|
    ensures var s' := Run(s, ops);
      q in s'.blocks && s'.blocks[q] == s.blocks[q] && Payload(s', q) == Written(Payload(s, q), ops, q)
    decreases |ops|
  {
    PayloadInMemory(s, q);
    if ops != [] {
      assert ops[0] in ops;
      StepIntact(s, ops[0]);
      PayloadKept(s, ops[0], q);
      BlocksHoldWhatWasStored(Step(s, ops[0]), ops[1..], q);
    }
  }

  lemma NothingLeft(s: State)
    requires Intact(s)
    ensures s.blocks == map[] ==> s.raw == map[]
  {
    if s.blocks == map[] {
      assert forall r | r in s.raw :: Owned(s, r);
    }
  }

  /** A request whose arithmetic wraps can fail after the raw block was obtained: nobody has it then. */
  lemma FailedAlignLeaksItsBlock(s: State, size: nat, align: nat, base: nat)
    requires Intact(s) && 0 < align <= SIZE_MAX && size <= SIZE_MAX && Placeable(s, base, RawLength(size, align))
    requires Align(align, size, base, Space(size, align)).None?
    ensures !Reasonable(size, align)
    ensures var (s', p) := Allocate(s, size, align, base);
      p.None? && s'.blocks == s.blocks && base in s'.raw && !Owned(s', base)
  {
    GeometryIffNoWrap(size, align, base);
    forall q | q in s.blocks
      ensures s.blocks[q].base != base
    {
      PlacedApart(s, base, RawLength(size, align), q);
    }
  }

  /** The largest size with alignment 2: the first sum wraps to 0, eight bytes are obtained, and the
      align call fails with nobody left to give them back. */
  lemma LargestRequestLeaks() returns (s: State)
    ensures s == State(Zeros(16), map[], map[]) && Intact(s) && Placeable(s, 8, RawLength(SIZE_MAX, 2))
    ensures RawLength(SIZE_MAX, 2) == 8 && Align(2, SIZE_MAX, 8, Space(SIZE_MAX, 2)).None?
    ensures var (s', p) := Allocate(s, SIZE_MAX, 2, 8); p.None? && s'.raw == map[8 := 8] && !Owned(s', 8)
  {
    s := State(Zeros(16), map[], map[]);
    RemainderIsUnique(SIZE_MAX + 1, SIZE_MAX + 1, 1, 0);
    RemainderIsUnique(8, SIZE_MAX + 1, 0, 8);
    GeometryIffNoWrap(SIZE_MAX, 2, 8);
    FailedAlignLeaksItsBlock(s, SIZE_MAX, 2, 8);
  }

  /** One byte less than the largest size with alignment 1: only the sum with the word wraps, so that
      a block of six bytes is obtained, and the align call goes well. */
  lemma WrappedLengthGoesUnnoticed(base: nat)
    ensures var size := SIZE_MAX - 1;
      RawLength(size, 1) == 6 && Align(1, size, base, Space(size, 1)).Some?
  {
    RemainderIsUnique(SIZE_MAX - 1, SIZE_MAX + 1, 0, SIZE_MAX - 1);
    RemainderIsUnique(SIZE_MAX - 1 + WORD, SIZE_MAX + 1, 1, 6);
    GeometryIffNoWrap(SIZE_MAX - 1, 1, base);
  }
}
