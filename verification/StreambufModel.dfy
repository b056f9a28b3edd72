/**
 * The state of asio::basic_streambuf as a value, the effect of each of its operations on that
 * value, and what whole runs of operations guarantee.  Positions are offsets into the array:
 * eback and the start of the array are offset 0.
 */
module StreambufModel {
  import opened Bytes

  const BUFFER_DELTA: int := 128

  datatype State = State(maxSize: int, store: seq<Byte>, g: int, eg: int, p: int, ep: int) {
    ghost predicate Valid() {
      && 0 <= g <= eg <= p <= ep <= maxSize <= SIZE_MAX
      && |store| == Max(1, ep)
    }

    function Size(): int { p - g }

    /** The readable characters: everything between the get and the put position. */
    ghost function View(): (v: seq<Byte>)
      requires Valid()
      ensures |v| == Size()
    {
      store[g..p]
    }
  }

  /** What a call leaves behind: the new state, whether it threw, the character it returned. */
  datatype Result = Result(s: State, threw: bool, ret: Option<Byte>)

  function Initial(maxSize: nat): State {
    var pend := Min(maxSize, BUFFER_DELTA);
    State(maxSize, Zeros(Max(pend, 1)), 0, 0, 0, pend)
  }

  /** The array after its section [from, to) has been moved to the front. */
  ghost function Shifted(store: seq<Byte>, from: nat, to: nat): (r: seq<Byte>)
    requires from <= to <= |store|
    ensures |r| == |store|
  {
    seq(|store|, i requires 0 <= i < |store| => if i < to - from then store[from + i] else store[i])
  }

  ghost function Resized(store: seq<Byte>, n: nat): (r: seq<Byte>)
    requires |store| <= n
    ensures |r| == n
  {
    store + Zeros(n - |store|)
  }

  lemma ResizedToSameLength(store: seq<Byte>)
    ensures Resized(store, |store|) == store
  {
  }

  /** Whether n more characters can be held at all is a matter of size() + n against max_size(). */
  ghost function Reserve(s: State, n: nat): (r: Result)
    requires s.Valid()
  {
    if n <= s.ep - s.p then
      Result(s, false, None)
    else if s.Size() + n <= s.maxSize then
      var ep' := Max(s.ep, s.Size() + n);
      var store' := Resized(Shifted(s.store, s.g, s.p), Max(1, ep'));
      Result(State(s.maxSize, store', 0, s.Size(), s.Size(), ep'), false, None)
    else
      Result(s.(store := Shifted(s.store, s.g, s.p)), true, None)
  }

  ghost function Put(s: State, c: Byte): Result
    requires s.Valid() && s.p < s.ep
  {
    Result(s.(store := s.store[s.p := c], p := s.p + 1), false, Some(c))
  }

  /** overflow(c) for a c that is not eof: a full buffer refuses, any other takes c. */
  ghost function Overflow(s: State, c: Byte): Result
    requires s.Valid()
  {
    if s.Size() == s.maxSize then Result(s, true, None)
    else if s.p < s.ep then Put(s, c)
    else Put(Reserve(s, Min(BUFFER_DELTA, s.maxSize - s.Size())).s, c)
  }

  ghost function Commit(s: State, n: nat): Result
    requires s.Valid()
  {
    var p' := s.p + ToInt(Min(n, s.ep - s.p));
    Result(s.(p := p', eg := p'), false, None)
  }

  /** consume(n) on an array that starts at an address: the sum of addresses that is compared with the
      put pointer has 64 bits. */
  ghost function Consume(s: State, n: nat, origin: nat): Result
    requires s.Valid()
  {
    var m := if (origin + s.g + n) % (SIZE_MAX + 1) > origin + s.p then s.Size() else n;
    Result(s.(g := s.g + ToInt(m), eg := s.p), false, None)
  }

  ghost function Underflow(s: State): Result
    requires s.Valid()
  {
    if s.g < s.p then Result(s.(eg := s.p), false, Some(s.store[s.g])) else Result(s, false, None)
  }

  ghost function Sgetc(s: State): Result
    requires s.Valid()
  {
    if s.g < s.eg then Result(s, false, Some(s.store[s.g])) else Underflow(s)
  }

  ghost function Sbumpc(s: State): Result
    requires s.Valid()
  {
    var r := Sgetc(s);
    if r.ret.Some? then r.(s := r.s.(g := s.g + 1)) else r
  }

  ghost function Sungetc(s: State): Result
    requires s.Valid()
  {
    if 0 < s.g then Result(s.(g := s.g - 1), false, Some(s.store[s.g - 1])) else Result(s, false, None)
  }

  /** The caller fills bytes of the region that prepare handed out. */
  ghost function Write(s: State, bs: seq<Byte>): Result
    requires s.Valid() && |bs| <= s.ep - s.p
  {
    Result(s.(store := Patched(s.store, s.p, bs)), false, None)
  }

  // ---------------------------------------------------------------- single calls

  lemma ShiftKeepsSection(store: seq<Byte>, from: nat, to: nat)
    requires from <= to <= |store|
    ensures Shifted(store, from, to)[..to - from] == store[from..to]
  {
  }

  /** prepare(n) throws exactly when size() + n exceeds max_size(); otherwise it keeps the
      readable characters, has room for n, and never lets the array shrink. */
  lemma ReserveIsExact(s: State, n: nat)
    requires s.Valid()
    ensures var r := Reserve(s, n);
      && r.s.Valid()
      && (r.threw <==> s.Size() + n > s.maxSize)
      && (!r.threw ==> r.s.View() == s.View() && n <= r.s.ep - r.s.p)
      && (!r.threw ==> r.s.ep == Max(s.ep, s.Size() + n))
      && |r.s.store| >= |s.store|
  {
    var r := Reserve(s, n);
    if !r.threw && n > s.ep - s.p {
      var moved := Shifted(s.store, s.g, s.p);
      ShiftKeepsSection(s.store, s.g, s.p);
      assert r.s.store[..|moved|] == moved;
      assert r.s.View() == moved[..s.Size()];
    }
  }

  /** What a prepare that throws does to the readable characters: the move to the front has
      happened although no position changed. */
  lemma ThrowingPrepareView(s: State, n: nat)
    requires s.Valid() && s.Size() + n > s.maxSize
    ensures var s' := Reserve(s, n).s;
      && s'.(store := s.store) == s
      && (forall j | 0 <= j < s.Size() ::
            s'.View()[j] == if s.g + j < s.Size() then s.View()[s.g + j] else s.View()[j])
  {
  }

  /** Whether a prepare that throws leaves the readable characters alone, for every array
      contents, is decided by the get position: at the front, or past as many characters as remain. */
  lemma ThrowingPrepareIsHarmless(s: State, n: nat)
    requires s.Valid() && s.Size() + n > s.maxSize
    ensures (forall store: seq<Byte> | |store| == |s.store| ::
               var t := s.(store := store); Reserve(t, n).s.View() == t.View())
            <==> s.g == 0 || s.g >= s.Size()
  {
    if s.g == 0 || s.g >= s.Size() {
      forall store: seq<Byte> | |store| == |s.store|
        ensures var t := s.(store := store); Reserve(t, n).s.View() == t.View()
      {
        ThrowingPrepareView(s.(store := store), n);
      }
    } else {
      var store := Zeros(|s.store|)[2 * s.g := 1];
      var t := s.(store := store);
      ThrowingPrepareView(t, n);
      assert t.View()[s.g] == 1 && Reserve(t, n).s.View()[0] == 1 && t.View()[0] == 0;
    }
  }

  /** overflow(c) throws exactly when the buffer is full, leaving everything as it was; otherwise
      it appends exactly c. */
  lemma OverflowIsExact(s: State, c: Byte)
    requires s.Valid()
    ensures var r := Overflow(s, c);
      && r.s.Valid()
      && (r.threw <==> s.Size() == s.maxSize)
      && (r.threw ==> r.s == s && s.g == 0 && s.p == s.ep)
      && (!r.threw ==> r.s.View() == s.View() + [c] && r.ret == Some(c))
      && |r.s.store| >= |s.store|
  {
    if s.Size() < s.maxSize {
      if s.p < s.ep {
        PutAppends(s, c);
      } else {
        ReserveIsExact(s, Min(BUFFER_DELTA, s.maxSize - s.Size()));
        PutAppends(Reserve(s, Min(BUFFER_DELTA, s.maxSize - s.Size())).s, c);
      }
    }
  }

  lemma PutAppends(s: State, c: Byte)
    requires s.Valid() && s.p < s.ep
    ensures var r := Put(s, c); r.s.Valid() && r.s.View() == s.View() + [c]
  {
  }

  lemma NothingToMove(s: State)
    requires s.Valid() && s.g == 0
    ensures Shifted(s.store, s.g, s.p) == s.store
  {
  }

  /** overflow on a full put area is a reserve, which in a full buffer moves nothing because the put
      area is then the whole array, and otherwise makes room. */
  lemma OverflowByParts(s: State, c: Byte)
    requires s.Valid()
    ensures s.p < s.ep ==> Overflow(s, c) == Put(s, c) && Put(s, c).s.Valid()
    ensures s.p == s.ep && s.Size() == s.maxSize ==>
      Reserve(s, BUFFER_DELTA) == Result(s, true, None) == Overflow(s, c)
    ensures s.p == s.ep && s.Size() < s.maxSize ==>
      var r := Reserve(s, Min(BUFFER_DELTA, s.maxSize - s.Size()));
      !r.threw && r.s.Valid() && r.s.p < r.s.ep && Overflow(s, c) == Put(r.s, c) && Put(r.s, c).s.Valid()
  {
    if s.p == s.ep && s.Size() == s.maxSize {
      NothingToMove(s);
    } else if s.p == s.ep {
      ReserveIsExact(s, Min(BUFFER_DELTA, s.maxSize - s.Size()));
    }
  }

  lemma SectionsJoin(store: seq<Byte>, a: nat, b: nat, c: nat)
    requires a <= b <= c <= |store|
    ensures store[a..c] == store[a..b] + store[b..c]
  {
  }

  /** commit(n) appends exactly the first min(n, room) characters of the put area if and only if
      that many fit in an int. */
  lemma CommitIsExact(s: State, n: nat)
    requires s.Valid()
    ensures var s', m := Commit(s, n).s, Min(n, s.ep - s.p);
      (s'.Valid() && s'.View() == s.View() + s.store[s.p..s.p + m]) <==> m <= INT_MAX
    ensures var m := Min(n, s.ep - s.p); m <= INT_MAX ==> Commit(s, n).s == s.(p := s.p + m, eg := s.p + m)
  {
    ToIntIsExact(Min(n, s.ep - s.p));
    var s', m := Commit(s, n).s, Min(n, s.ep - s.p);
    SectionsJoin(s.store, s.g, s.p, s.p + m);
    if s'.Valid() && s'.View() == s.View() + s.store[s.p..s.p + m] {
      assert |s'.View()| == s.Size() + m;
    }
  }

  /** gptr() + n stays in the address space and the count fits in an int; or it wraps, so that nothing
      is cut off from n, and the int that n is converted to happens to be the size. */
  ghost predicate ConsumeFits(s: State, n: nat, origin: nat) {
    if origin + s.g + n <= SIZE_MAX then Min(n, s.Size()) <= INT_MAX else ToInt(n) == s.Size()
  }

  lemma ConsumeAmount(s: State, n: nat, origin: nat) returns (m: nat)
    requires s.Valid() && n <= SIZE_MAX && origin + |s.store| <= SIZE_MAX
    ensures m == if origin + s.g + n <= SIZE_MAX then Min(n, s.Size()) else n
    ensures Consume(s, n, origin).s == s.(g := s.g + ToInt(m), eg := s.p)
    ensures origin + s.g + n > SIZE_MAX ==> n > s.Size()
  {
    var sum := origin + s.g + n;
    if sum <= SIZE_MAX {
      RemainderIsUnique(sum, SIZE_MAX + 1, 0, sum);
      m := Min(n, s.Size());
    } else {
      RemainderIsUnique(sum, SIZE_MAX + 1, 1, sum - (SIZE_MAX + 1));
      m := n;
    }
  }

  /** consume(n) drops exactly the first min(n, size()) characters, and exposes everything behind
      them to the get area, if and only if it fits. */
  lemma ConsumeIsExact(s: State, n: nat, origin: nat)
    requires s.Valid() && n <= SIZE_MAX && origin + |s.store| <= SIZE_MAX
    ensures var s', m := Consume(s, n, origin).s, Min(n, s.Size());
      (s'.Valid() && s'.eg == s.p && s'.View() == s.View()[m..]) <==> ConsumeFits(s, n, origin)
    ensures ConsumeFits(s, n, origin) ==> Consume(s, n, origin).s == s.(g := s.g + Min(n, s.Size()), eg := s.p)
  {
    var amount := ConsumeAmount(s, n, origin);
    ToIntIsExact(Min(n, s.Size()));
    var s', m := Consume(s, n, origin).s, Min(n, s.Size());
    if s'.Valid() && s'.View() == s.View()[m..] {
      assert |s'.View()| == s.Size() - m;
    }
  }

  /** Preparing room, filling it and committing it appends exactly the bytes written. */
  lemma PrepareWriteCommit(s: State, bs: seq<Byte>)
    requires s.Valid() && s.Size() + |bs| <= s.maxSize && |bs| <= INT_MAX
    ensures Reserve(s, |bs|).s.Valid() && |bs| <= Reserve(s, |bs|).s.ep - Reserve(s, |bs|).s.p
    ensures var w := Write(Reserve(s, |bs|).s, bs).s;
      w.Valid() && Commit(w, |bs|).s.Valid() && Commit(w, |bs|).s.View() == s.View() + bs
  {
    ReserveIsExact(s, |bs|);
    var t := Reserve(s, |bs|).s;
    var w := Write(t, bs).s;
    CommitIsExact(w, |bs|);
    WrittenBehind(t.store, t.g, t.p, bs);
  }

  lemma WrittenBehind(store: seq<Byte>, from: nat, at: nat, bs: seq<Byte>)
    requires from <= at && at + |bs| <= |store|
    ensures var r := Patched(store, at, bs); r[from..at] == store[from..at] && r[at..at + |bs|] == bs
  {
  }

  /** The size read_size_helper suggests, given what capacity() reports. */
  function ReadSize(s: State, capacity: int, m: nat): int {
    Min(Max(512, capacity - s.Size()), Min(m, s.maxSize - s.Size()))
  }

  /** The suggested size is within the request and the room left, and less than both only if it is 512
      or the spare capacity, whichever is more; it is zero only if nothing was asked for or nothing
      fits, and a prepare of it never throws. */
  lemma ReadSizeCanBePrepared(s: State, capacity: int, m: nat)
    requires s.Valid() && |s.store| <= capacity
    ensures var r := ReadSize(s, capacity, m);
      && 0 <= r <= m && r <= s.maxSize - s.Size()
      && (r < m && r < s.maxSize - s.Size() ==> 512 <= r && capacity - s.Size() <= r)
      && (512 < r ==> r <= capacity - s.Size())
      && (r == 0 <==> m == 0 || s.Size() == s.maxSize)
      && !Reserve(s, r).threw
  {
    ReserveIsExact(s, ReadSize(s, capacity, m));
  }

  // ---------------------------------------------------------------- whole runs

  datatype Op =
    | PrepareOp(n: nat)
    | WriteOp(bs: seq<Byte>)
    | CommitOp(n: nat)
    | ConsumeOp(n: nat, origin: nat)
    | SputcOp(c: Byte)
    | SgetcOp
    | SbumpcOp
    | SungetcOp

  /** A caller may only write inside the room that is there; a count is a size_t, and the array is
      wherever it is in the address space when something is consumed. */
  ghost predicate Callable(s: State, op: Op)
    requires s.Valid()
  {
    && (op.WriteOp? ==> |op.bs| <= s.ep - s.p)
    && (op.ConsumeOp? ==> op.n <= SIZE_MAX && op.origin + |s.store| <= SIZE_MAX)
  }

  ghost function Step(s: State, op: Op): Result
    requires s.Valid() && Callable(s, op)
  {
    match op
    case PrepareOp(n) => Reserve(s, n)
    case WriteOp(bs) => Write(s, bs)
    case CommitOp(n) => Commit(s, n)
    case ConsumeOp(n, origin) => Consume(s, n, origin)
    case SputcOp(c) => Overflow(s, c)
    case SgetcOp => Sgetc(s)
    case SbumpcOp => Sbumpc(s)
    case SungetcOp => Sungetc(s)
  }

  /** The demands on a step that concern integer widths. */
  ghost predicate FitsInt(s: State, op: Op)
    requires s.Valid()
  {
    match op
    case CommitOp(n) => Min(n, s.ep - s.p) <= INT_MAX
    case ConsumeOp(n, origin) => ConsumeFits(s, n, origin)
    case _ => true
  }

  /** Every step, thrown or not, keeps the class invariant and never shrinks the array, exactly if it
      satisfies the demands on widths; in a buffer whose maximum fits in an int it does, unless it is
      a consume that wraps. */
  lemma StepKeepsValid(s: State, op: Op)
    requires s.Valid() && Callable(s, op)
    ensures s.maxSize <= INT_MAX && (op.ConsumeOp? ==> op.origin + s.g + op.n <= SIZE_MAX) ==> FitsInt(s, op)
    ensures FitsInt(s, op) <==> Step(s, op).s.Valid() && Advanced(s, op)
    ensures FitsInt(s, op) ==> |Step(s, op).s.store| >= |s.store| && Step(s, op).s.maxSize == s.maxSize
  {
    match op
    case CommitOp(n) => ToIntIsExact(Min(n, s.ep - s.p));
    case ConsumeOp(n, origin) => ConsumeMoves(s, n, origin);
    case _ => OtherStepKeepsValid(s, op);
  }

  lemma OtherStepKeepsValid(s: State, op: Op)
    requires s.Valid() && Callable(s, op) && !op.CommitOp? && !op.ConsumeOp?
    ensures var s' := Step(s, op).s; s'.Valid() && |s'.store| >= |s.store| && s'.maxSize == s.maxSize
  {
    match op
    case PrepareOp(n) => ReserveIsExact(s, n);
    case SputcOp(c) => OverflowIsExact(s, c);
    case _ =>
  }

  lemma ConsumeMoves(s: State, n: nat, origin: nat)
    requires s.Valid() && n <= SIZE_MAX && origin + |s.store| <= SIZE_MAX
    ensures var s' := Consume(s, n, origin).s;
      ConsumeFits(s, n, origin) <==> s'.Valid() && s'.g == s.g + Min(n, s.Size())
  {
    var amount := ConsumeAmount(s, n, origin);
    ToIntIsExact(Min(n, s.Size()));
  }

  /** No step throws but a prepare of more than fits and a put into a full buffer, and those always do. */
  lemma ThrowsIff(s: State, op: Op)
    requires s.Valid() && Callable(s, op)
    ensures Step(s, op).threw
      <==> (op.PrepareOp? && s.Size() + op.n > s.maxSize) || (op.SputcOp? && s.Size() == s.maxSize)
  {
    match op
    case PrepareOp(n) => ReserveIsExact(s, n);
    case SputcOp(c) => OverflowIsExact(s, c);
    case _ =>
  }

  /** The position the call promises to advance moved by the promised amount. */
  ghost predicate Advanced(s: State, op: Op)
    requires s.Valid() && Callable(s, op)
  {
    match op
    case CommitOp(n) => Step(s, op).s.p == s.p + Min(n, s.ep - s.p)
    case ConsumeOp(n, _) => Step(s, op).s.g == s.g + Min(n, s.Size())
    case _ => true
  }

  /**
   * A run with its history: all bytes that entered the queue, all bytes removed from it (a putback
   * takes one back), how many bytes before the get position are still the ones removed last, and
   * the largest room ever asked for.
   */
  datatype Ledger = Ledger(s: State, entered: seq<Byte>, removed: seq<Byte>, intact: nat, peak: int)

  ghost predicate Balanced(l: Ledger) {
    && l.s.Valid()
    && l.entered == l.removed + l.s.View()
    && TakesBack(l.removed, l.s.store, l.s.g, l.intact)
    && l.peak == l.s.ep
  }

  /** A peek shows the first readable character and takes nothing, and taking a character takes that
      one; both fail exactly if nothing is readable. */
  lemma PeekShowsTheNext(s: State)
    requires s.Valid()
    ensures var peek, take := Sgetc(s), Sbumpc(s);
      && peek.ret == take.ret == (if s.Size() > 0 then Some(s.View()[0]) else None)
      && !peek.threw && !take.threw
      && peek.s.Valid() && peek.s.View() == s.View()
      && take.s.Valid() && take.s.View() == (if s.Size() > 0 then s.View()[1..] else s.View())
      && Sbumpc(peek.s).ret == peek.ret
  {
  }

  /** A putback shows the character that was removed last, and makes it readable again; it fails exactly
      at the front of the array. */
  lemma PutbackShowsTheLast(l: Ledger)
    requires Balanced(l) && (l.s.g > 0 ==> l.intact > 0)
    ensures var back := Sungetc(l.s);
      && (l.s.g == 0 ==> back == Result(l.s, false, None))
      && (l.s.g > 0 ==>
            && l.removed != [] && back.ret == Some(l.removed[|l.removed| - 1])
            && back.s.Valid() && back.s.View() == [back.ret.value] + l.s.View())
  {
    if l.s.g > 0 {
      SectionGrowsInFront(l.s.store, l.s.g, l.s.p);
    }
  }

  /** The caller's own obligation, and the integer width. */
  ghost predicate Lawful(s: State, op: Op)
    requires s.Valid()
  {
    Callable(s, op) && FitsInt(s, op)
  }

  /**
   * The conditions on a step under which the queue law is claimed beyond that: no throwing prepare
   * that scrambles unread bytes, and no putback of a byte a throwing prepare has overwritten.
   */
  ghost predicate Admissible(l: Ledger, op: Op)
    requires l.s.Valid()
  {
    && Lawful(l.s, op)
    && (op.PrepareOp? && l.s.Size() + op.n > l.s.maxSize ==> l.s.g == 0 || l.s.g >= l.s.Size())
    && (op.SungetcOp? && l.s.g > 0 ==> l.intact > 0)
  }

  /** The room a step asks reserve for, on top of size(). */
  ghost function Asked(s: State, op: Op): nat
    requires s.Valid()
  {
    match op
    case PrepareOp(n) => n
    case SputcOp(c) => if s.p == s.ep then Min(BUFFER_DELTA, s.maxSize - s.Size()) else 0
    case _ => 0
  }

  ghost function Record(l: Ledger, op: Op): Ledger
    requires l.s.Valid() && Lawful(l.s, op)
  {
    var s := l.s;
    var r := Step(s, op);
    var peak := if r.threw then l.peak else Max(l.peak, s.Size() + Asked(s, op));
    match op
    case PrepareOp(n) => l.(s := r.s, peak := peak, intact := if r.threw || r.s.g == 0 then 0 else l.intact)
    case SputcOp(c) =>
      l.(s := r.s, peak := peak, intact := Min(l.intact, r.s.g),
         entered := if r.threw then l.entered else l.entered + [c])
    case CommitOp(n) => l.(s := r.s, entered := l.entered + s.store[s.p..s.p + Min(n, s.ep - s.p)])
    case ConsumeOp(n, _) =>
      var m := Min(n, s.Size());
      l.(s := r.s, removed := l.removed + s.View()[..m], intact := l.intact + m)
    case SbumpcOp =>
      if r.ret.Some? then l.(s := r.s, removed := l.removed + [r.ret.value], intact := l.intact + 1) else l.(s := r.s)
    case SungetcOp =>
      if r.ret.Some? && l.removed != [] && l.intact > 0 then
        l.(s := r.s, removed := l.removed[..|l.removed| - 1], intact := l.intact - 1)
      else l.(s := r.s)
    case _ => l.(s := r.s)
  }

  ghost predicate LawfulRun(l: Ledger, ops: seq<Op>)
    decreases |ops|
  {
    ops != [] ==>
      && l.s.Valid() && Lawful(l.s, ops[0])
      && LawfulRun(Record(l, ops[0]), ops[1..])
  }

  ghost function RunOf(l: Ledger, ops: seq<Op>): Ledger
    requires LawfulRun(l, ops)
    decreases |ops|
  {
    if ops == [] then l else RunOf(Record(l, ops[0]), ops[1..])
  }

  ghost predicate AdmissibleRun(l: Ledger, ops: seq<Op>)
    decreases |ops|
  {
    LawfulRun(l, ops) &&
    (ops != [] ==> Admissible(l, ops[0]) && AdmissibleRun(Record(l, ops[0]), ops[1..]))
  }

  /** One step of any lawful run: the invariant, the high-water mark, the maximum and the array. */
  lemma StepKeepsMark(l: Ledger, op: Op) returns (l': Ledger)
    requires l.s.Valid() && l.peak == l.s.ep && Lawful(l.s, op)
    ensures l' == Record(l, op) && l'.s.Valid() && l'.peak == l'.s.ep && l'.s.maxSize == l.s.maxSize
    ensures l.s.ep <= l'.s.ep && |l.s.store| <= |l'.s.store|
  {
    l' := Record(l, op);
    StepKeepsValid(l.s, op);
    StepKeepsEnd(l.s, op);
  }

  /** The put area ends where it did, or where the room asked for and granted demands. */
  lemma StepKeepsEnd(s: State, op: Op)
    requires s.Valid() && Lawful(s, op)
    ensures var r := Step(s, op); r.s.ep == if r.threw then s.ep else Max(s.ep, s.Size() + Asked(s, op))
  {
    match op
    case PrepareOp(n) => ReserveEnd(s, n);
    case SputcOp(c) => SputcEnd(s, c);
    case _ =>
  }

  lemma ReserveEnd(s: State, n: nat)
    requires s.Valid()
    ensures var r := Reserve(s, n); r.s.ep == if r.threw then s.ep else Max(s.ep, s.Size() + n)
  {
  }

  lemma SputcEnd(s: State, c: Byte)
    requires s.Valid()
    ensures var r := Overflow(s, c); r.s.ep == if r.threw then s.ep else Max(s.ep, s.Size() + Asked(s, SputcOp(c)))
  {
    if s.p == s.ep && s.Size() < s.maxSize {
      ReserveEnd(s, Asked(s, SputcOp(c)));
    }
  }

  /**
   * Over every run whatever, with throws that scramble and putbacks of any depth: the positions stay
   * in order and inside the array, the array is as long as the put area's end says and never
   * shrinks, and that end is the largest room ever asked for and granted.
   */
  lemma {:induction false} RunKeepsInvariant(l: Ledger, ops: seq<Op>)
    requires l.s.Valid() && l.peak == l.s.ep && LawfulRun(l, ops)
    ensures var l' := RunOf(l, ops);
      && l'.s.Valid() && l'.peak == l'.s.ep && l'.s.maxSize == l.s.maxSize
      && l.s.ep <= l'.s.ep && |l.s.store| <= |l'.s.store|
    decreases |ops|
  {
    if ops != [] {
      var l' := StepKeepsMark(l, ops[0]);
      RunKeepsInvariant(l', ops[1..]);
    }
  }

  ghost function Fresh(maxSize: nat): Ledger {
    Ledger(Initial(maxSize), [], [], 0, Min(maxSize, BUFFER_DELTA))
  }

  /** The same for a new buffer: in particular size() <= max_size() in every reachable state. */
  lemma RunKeepsInvariantFromConstruction(maxSize: nat, ops: seq<Op>)
    requires maxSize <= SIZE_MAX && LawfulRun(Fresh(maxSize), ops)
    ensures var l := RunOf(Fresh(maxSize), ops);
      l.s.Valid() && l.s.Size() <= maxSize == l.s.maxSize && Min(maxSize, BUFFER_DELTA) <= l.s.ep == l.peak
  {
    RunKeepsInvariant(Fresh(maxSize), ops);
  }

  lemma PrepareBalanced(l: Ledger, n: nat)
    requires Balanced(l) && Admissible(l, PrepareOp(n))
    ensures Balanced(Record(l, PrepareOp(n)))
  {
    var r, l' := Reserve(l.s, n), Record(l, PrepareOp(n));
    ReserveIsExact(l.s, n);
    if r.threw {
      ThrowingPrepareView(l.s, n);
      assert r.s.View() == l.s.View();
    } else if n <= l.s.ep - l.s.p {
      assert l'.s == l.s;
    } else {
      assert l'.intact == 0;
    }
  }

  lemma SputcBalanced(l: Ledger, c: Byte)
    requires Balanced(l)
    ensures Balanced(Record(l, SputcOp(c)))
  {
    OverflowIsExact(l.s, c);
    if l.s.p < l.s.ep {
      assert Record(l, SputcOp(c)) == l.(s := Put(l.s, c).s, entered := l.entered + [c]);
    } else if l.s.Size() < l.s.maxSize {
      var n := Min(BUFFER_DELTA, l.s.maxSize - l.s.Size());
      ReserveIsExact(l.s, n);
      ReserveKeepsPutback(l.s, n);
    }
  }

  /** A reserve that does not move the get position to the front leaves the bytes before it alone. */
  lemma ReserveKeepsPutback(s: State, n: nat)
    requires s.Valid() && !Reserve(s, n).threw
    ensures var r := Reserve(s, n).s; r == s || r.g == 0
  {
  }

  /** Moving the get position over m readable bytes hands exactly those to the reader. */
  lemma ReadingBalanced(l: Ledger, m: nat, eg: int)
    requires Balanced(l) && m <= l.s.Size() && l.s.g + m <= eg <= l.s.p
    ensures Balanced(l.(s := l.s.(g := l.s.g + m, eg := eg),
                        removed := l.removed + l.s.View()[..m], intact := l.intact + m))
  {
    var s' := l.s.(g := l.s.g + m, eg := eg);
    assert l.s.View() == l.s.View()[..m] + s'.View();
  }

  lemma ConsumeBalanced(l: Ledger, n: nat, origin: nat)
    requires Balanced(l) && Admissible(l, ConsumeOp(n, origin))
    ensures Balanced(Record(l, ConsumeOp(n, origin)))
  {
    var m := Min(n, l.s.Size());
    ConsumeIsExact(l.s, n, origin);
    assert Record(l, ConsumeOp(n, origin))
        == l.(s := l.s.(g := l.s.g + m, eg := l.s.p), removed := l.removed + l.s.View()[..m], intact := l.intact + m);
    ReadingBalanced(l, m, l.s.p);
  }

  lemma SbumpcBalanced(l: Ledger)
    requires Balanced(l)
    ensures Balanced(Record(l, SbumpcOp))
  {
    var r := Sbumpc(l.s);
    if r.ret.Some? {
      ReadingBalanced(l, 1, r.s.eg);
      assert l.s.View()[..1] == [r.ret.value];
    }
  }

  lemma SectionGrowsInFront(store: seq<Byte>, from: nat, to: nat)
    requires 0 < from <= to <= |store|
    ensures store[from - 1..to] == [store[from - 1]] + store[from..to]
  {
  }

  lemma SungetcBalanced(l: Ledger)
    requires Balanced(l) && Admissible(l, SungetcOp)
    ensures Balanced(Record(l, SungetcOp))
  {
    if 0 < l.s.g {
      var g, k := l.s.g, |l.removed|;
      var b := l.s.store[g - 1];
      var l' := Record(l, SungetcOp);
      assert 0 < l.intact && b == l.removed[k - g + (g - 1)];
      SectionGrowsInFront(l.s.store, g, l.s.p);
      assert l.removed == l.removed[..k - 1] + [b];
      assert l'.removed == l.removed[..k - 1];
    }
  }

  lemma WriteBalanced(l: Ledger, bs: seq<Byte>)
    requires Balanced(l) && Admissible(l, WriteOp(bs))
    ensures Balanced(Record(l, WriteOp(bs)))
  {
    assert Write(l.s, bs).s.View() == l.s.View();
  }

  /** Moving the put position over m characters lets exactly those enter. */
  lemma FillingBalanced(l: Ledger, m: nat)
    requires Balanced(l) && m <= l.s.ep - l.s.p
    ensures Balanced(l.(s := l.s.(p := l.s.p + m, eg := l.s.p + m),
                        entered := l.entered + l.s.store[l.s.p..l.s.p + m]))
  {
    var s, entering := l.s, l.s.store[l.s.p..l.s.p + m];
    SectionsJoin(s.store, s.g, s.p, s.p + m);
    assert l.entered + entering == l.removed + (s.View() + entering);
  }

  lemma CommitBalanced(l: Ledger, n: nat)
    requires Balanced(l) && Admissible(l, CommitOp(n))
    ensures Balanced(Record(l, CommitOp(n)))
  {
    var m := Min(n, l.s.ep - l.s.p);
    ToIntIsExact(m);
    assert Commit(l.s, n).s == l.s.(p := l.s.p + m, eg := l.s.p + m);
    FillingBalanced(l, m);
  }

  lemma StepBalanced(l: Ledger, op: Op)
    requires Balanced(l) && Admissible(l, op)
    ensures Balanced(Record(l, op))
  {
    match op
    case PrepareOp(n) => PrepareBalanced(l, n);
    case WriteOp(bs) => WriteBalanced(l, bs);
    case CommitOp(n) => CommitBalanced(l, n);
    case ConsumeOp(n, origin) => ConsumeBalanced(l, n, origin);
    case SputcOp(c) => SputcBalanced(l, c);
    case SgetcOp =>
    case SbumpcOp => SbumpcBalanced(l);
    case SungetcOp => SungetcBalanced(l);
  }

  /**
   * The stream buffer is a first-in first-out queue over every admissible run: across all shifts,
   * growths, throws and putbacks, the bytes removed so far followed by the readable ones are
   * exactly the bytes that entered, in order, and the end of the put area is the largest room
   * that was ever asked for and granted.
   */
  lemma {:induction false} QueueLaw(l: Ledger, ops: seq<Op>)
    requires Balanced(l) && AdmissibleRun(l, ops)
    ensures Balanced(RunOf(l, ops))
    decreases |ops|
  {
    if ops != [] {
      StepBalanced(l, ops[0]);
      QueueLaw(Record(l, ops[0]), ops[1..]);
    }
  }

  /** The queue law for a freshly constructed buffer. */
  lemma QueueLawFromConstruction(maxSize: nat, ops: seq<Op>)
    requires maxSize <= SIZE_MAX
    requires AdmissibleRun(Fresh(maxSize), ops)
    ensures var l := RunOf(Fresh(maxSize), ops);
      && l.s.Valid() && l.s.Size() <= maxSize
      && l.entered == l.removed + l.s.View()
      && l.s.ep == l.peak
  {
    QueueLaw(Fresh(maxSize), ops);
    RunKeepsInvariant(Fresh(maxSize), ops);
  }

  /** So many sungetc in a row. */
  function Putbacks(k: nat): seq<Op> {
    if k == 0 then [] else [SungetcOp] + Putbacks(k - 1)
  }

  lemma OnePutback(l: Ledger) returns (next: Ledger)
    requires Balanced(l) && 0 < l.intact
    ensures Admissible(l, SungetcOp) && next == Record(l, SungetcOp) && Balanced(next)
    ensures l.removed != [] && next.removed == l.removed[..|l.removed| - 1]
    ensures next.intact == l.intact - 1 && next.entered == l.entered
  {
    SungetcBalanced(l);
    next := Record(l, SungetcOp);
  }

  lemma FrontOfFront(a: seq<Byte>, m: nat, k: nat)
    requires k <= m <= |a|
    ensures a[..m][..k] == a[..k]
  {
  }

  lemma PutbackFirst(l: Ledger, next: Ledger, more: seq<Op>)
    requires l.s.Valid() && Admissible(l, SungetcOp) && next == Record(l, SungetcOp)
    ensures AdmissibleRun(l, [SungetcOp] + more) <==> AdmissibleRun(next, more)
    ensures AdmissibleRun(next, more) ==> RunOf(l, [SungetcOp] + more) == RunOf(next, more)
  {
    assert ([SungetcOp] + more)[1..] == more;
  }

  lemma {:induction false} PutbacksTakeBack(l: Ledger, k: nat) returns (back: Ledger)
    requires Balanced(l) && k <= l.intact
    ensures AdmissibleRun(l, Putbacks(k)) && back == RunOf(l, Putbacks(k)) && Balanced(back)
    ensures k <= |l.removed| && back.removed == l.removed[..|l.removed| - k] && back.entered == l.entered
    decreases k
  {
    if k == 0 {
      back := l;
    } else {
      assert Putbacks(k) == [SungetcOp] + Putbacks(k - 1);
      var next := OnePutback(l);
      PutbackFirst(l, next, Putbacks(k - 1));
      back := PutbacksTakeBack(next, k - 1);
      FrontOfFront(l.removed, |l.removed| - 1, |l.removed| - k);
    }
  }

  /** Consuming is undone by as many putbacks as characters were dropped: they are all readable
      again, in front of the others. */
  lemma ConsumeCanBePutBack(l: Ledger, n: nat, origin: nat)
    requires Balanced(l) && Admissible(l, ConsumeOp(n, origin))
    ensures var m, l' := Min(n, l.s.Size()), Record(l, ConsumeOp(n, origin));
      AdmissibleRun(l', Putbacks(m)) &&
      var back := RunOf(l', Putbacks(m));
      Balanced(back) && back.removed == l.removed && back.s.View() == l.s.View()
  {
    var m, l' := Min(n, l.s.Size()), Record(l, ConsumeOp(n, origin));
    ConsumeBalanced(l, n, origin);
    var back := PutbacksTakeBack(l', m);
    assert l'.removed[..|l.removed|] == l.removed;
    SameAfterSamePrefix(l.removed, back.s.View(), l.s.View());
  }

  /** Taking a character is undone by a putback. */
  lemma SbumpcCanBePutBack(l: Ledger)
    requires Balanced(l) && Sbumpc(l.s).ret.Some?
    ensures var l' := Record(l, SbumpcOp);
      l'.s.Valid() && Admissible(l', SungetcOp) &&
      var back := Record(l', SungetcOp);
      Balanced(back) && back.removed == l.removed && back.s.View() == l.s.View()
  {
    var l' := Record(l, SbumpcOp);
    SbumpcBalanced(l);
    var back := OnePutback(l');
    assert back.removed == l.removed;
    SameAfterSamePrefix(l.removed, back.s.View(), l.s.View());
  }

  lemma SameAfterSamePrefix(a: seq<Byte>, b: seq<Byte>, c: seq<Byte>)
    requires a + b == a + c
    ensures b == c
  {
    assert b == (a + b)[|a|..] && c == (a + c)[|a|..];
  }

  // ---------------------------------------------------------------- inputs on which a promise fails

  /** Three bytes put into a new buffer of four. */
  lemma ThreePut() returns (s1: State, s2: State, s3: State)
    ensures Initial(4).Valid() && s1 == Step(Initial(4), SputcOp(1)).s && s1.Valid()
    ensures s2 == Step(s1, SputcOp(2)).s && s2.Valid()
    ensures s3 == Step(s2, SputcOp(3)).s && s3 == State(4, [1, 2, 3, 0], 0, 0, 3, 4)
  {
    assert Initial(4) == State(4, [0, 0, 0, 0], 0, 0, 0, 4);
    s1 := PutStep(Initial(4), 1);
    s2 := PutStep(s1, 2);
    s3 := PutStep(s2, 3);
  }

  /** Then one byte is taken and room for three asked for: the call throws, and the first of the two
      unread bytes has become the second. */
  lemma ThrowingPrepareScrambles(s: State)
    requires s == State(4, [1, 2, 3, 0], 0, 0, 3, 4)
    ensures var s' := Step(s, ConsumeOp(1, 16)).s;
      s'.Valid() && Reserve(s', 3).threw && s'.View() == [2, 3] && Reserve(s', 3).s.View() == [3, 3]
  {
    TakenOne(s);
    MovedToFront(Step(s, ConsumeOp(1, 16)).s);
  }

  lemma PutStep(s: State, c: Byte) returns (next: State)
    requires s.Valid() && s.p < s.ep
    ensures next == Step(s, SputcOp(c)).s && next.Valid()
    ensures next == s.(store := s.store[s.p := c], p := s.p + 1)
  {
    next := Step(s, SputcOp(c)).s;
  }

  lemma TakenOne(s: State)
    requires s == State(4, [1, 2, 3, 0], 0, 0, 3, 4)
    ensures Step(s, ConsumeOp(1, 16)).s == State(4, [1, 2, 3, 0], 1, 3, 3, 4)
  {
  }

  lemma MovedToFront(s: State)
    requires s == State(4, [1, 2, 3, 0], 1, 3, 3, 4)
    ensures Reserve(s, 3).threw && s.View() == [2, 3] && Reserve(s, 3).s.View() == [3, 3]
  {
    assert Shifted(s.store, s.g, s.p) == [2, 3, 3, 0];
  }

  /** A commit of 2^31 bytes into as much room moves the put position to before the array. */
  lemma HugeCommitFails()
    ensures var room := INT_MAX + 1;
      var s := State(room, Zeros(room), 0, 0, 0, room);
      s.Valid() && Commit(s, room).s.p == -room
  {
  }

  /** So does a consume of size_t's maximum with the get position at the front of an array that
      starts at address 16, where the sum of addresses wraps, in a buffer of any size: the position
      moves back by one. */
  lemma WrappingConsumeFails(s: State)
    requires s.Valid() && s.g == 0 && 0 < s.Size() && 16 + |s.store| <= SIZE_MAX
    ensures Callable(s, ConsumeOp(SIZE_MAX, 16)) && !Lawful(s, ConsumeOp(SIZE_MAX, 16))
    ensures Step(s, ConsumeOp(SIZE_MAX, 16)).s.g == -1
  {
    var _ := ConsumeAmount(s, SIZE_MAX, 16);
    RemainderIsUnique(SIZE_MAX, 0x1_0000_0000, 0xFFFF_FFFF, 0xFFFF_FFFF);
  }
}
