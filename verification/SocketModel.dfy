/**
 * The two retry loops of asio::basic_socket_streambuf over an environment that is free to answer
 * as it likes: a stream of replies to send, one of replies to recv, and a clock.  Every theorem
 * holds for all reply streams.
 */
module SocketModel {
  import opened Bytes

  const BUFFER_SIZE: int := 512
  const PUTBACK_MAX: int := 8
  const ROOM: int := BUFFER_SIZE - PUTBACK_MAX

  /** Why a loop gave up; a send that takes nothing ends it with the error code cleared. */
  datatype Error = TimedOut | EndOfFile | SystemError | NothingTaken

  /** What one call of send leads to.  Taking no byte at all counts as a failure.  Waiting for the
      socket after it would have blocked advances the clock by at least one tick. */
  datatype SendReply =
    | Took(n: nat, elapsed: nat)
    | SendBlocked(elapsed: nat, pollSucceeds: bool)
    | SendFailed(elapsed: nat)

  datatype RecvReply =
    | Gave(bytes: seq<Byte>, elapsed: nat)
    | RecvBlocked(elapsed: nat, pollSucceeds: bool)
    | RecvFailed(elapsed: nat)

  // ---------------------------------------------------------------- the send loop

  datatype Drained = Drained(sent: nat, calls: nat, now: nat, error: Option<Error>)

  /** Sends out until nothing is left, the deadline has passed or the socket fails. */
  function Drain(env: nat -> SendReply, calls: nat, now: nat, expiry: int, out: seq<Byte>): Drained
    decreases |out|, expiry - now
  {
    if out == [] then Drained(0, calls, now, None)
    else if expiry < now then Drained(0, calls, now, Some(TimedOut))
    else match env(calls)
      case Took(n, elapsed) =>
        var k := Min(n, |out|);
        if k == 0 then Drained(0, calls + 1, now + elapsed, Some(NothingTaken))
        else
          var r := Drain(env, calls + 1, now + elapsed, expiry, out[k..]);
          r.(sent := k + r.sent)
      case SendBlocked(elapsed, pollSucceeds) =>
        if !pollSucceeds then Drained(0, calls + 1, now + 1 + elapsed, Some(SystemError))
        else Drain(env, calls + 1, now + 1 + elapsed, expiry, out)
      case SendFailed(elapsed) => Drained(0, calls + 1, now + elapsed, Some(SystemError))
  }

  /** The loop reports success exactly when every byte has been sent; otherwise a strict prefix
      has.  It makes at most one send call per byte plus one per tick left before the deadline. */
  lemma {:induction false} DrainIsExact(env: nat -> SendReply, calls: nat, now: nat, expiry: int, out: seq<Byte>)
    ensures var r := Drain(env, calls, now, expiry, out);
      && r.sent <= |out|
      && (r.error.None? <==> r.sent == |out|)
      && r.now >= now
      && 0 <= r.calls - calls <= |out| + Max(0, expiry - now + 1)
    decreases |out|, expiry - now
  {
    if out != [] && now <= expiry {
      match env(calls)
      case Took(n, elapsed) =>
        if n > 0 {
          DrainIsExact(env, calls + 1, now + elapsed, expiry, out[Min(n, |out|)..]);
        }
      case SendBlocked(elapsed, pollSucceeds) =>
        if pollSucceeds {
          DrainIsExact(env, calls + 1, now + 1 + elapsed, expiry, out);
        }
      case SendFailed(_) =>
    }
  }

  /** A time-out is reported only once the clock is past the deadline. */
  lemma {:induction false} TimeOutMeansLate(env: nat -> SendReply, calls: nat, now: nat, expiry: int, out: seq<Byte>)
    ensures var r := Drain(env, calls, now, expiry, out); r.error == Some(TimedOut) ==> expiry < r.now
    decreases |out|, expiry - now
  {
    if out != [] && now <= expiry {
      match env(calls)
      case Took(n, elapsed) =>
        if n > 0 {
          TimeOutMeansLate(env, calls + 1, now + elapsed, expiry, out[Min(n, |out|)..]);
        }
      case SendBlocked(elapsed, pollSucceeds) =>
        if pollSucceeds {
          TimeOutMeansLate(env, calls + 1, now + 1 + elapsed, expiry, out);
        }
      case SendFailed(_) =>
    }
  }

  // ---------------------------------------------------------------- when the send loop succeeds

  /** The time a reply takes. */
  function Cost(r: SendReply): nat {
    if r.SendBlocked? then 1 + r.elapsed else r.elapsed
  }

  /** The clock before the k-th further call. */
  function Clock(env: nat -> SendReply, calls: nat, now: nat, k: nat): nat
    decreases k
  {
    if k == 0 then now else Clock(env, calls + 1, now + Cost(env(calls)), k - 1)
  }

  /** How much the next k replies take. */
  function Taken(env: nat -> SendReply, calls: nat, k: nat): nat
    decreases k
  {
    if k == 0 then 0 else (if env(calls).Took? then env(calls).n else 0) + Taken(env, calls + 1, k - 1)
  }

  /** A reply after which the loop goes on. */
  predicate Usable(r: SendReply) {
    (r.Took? && r.n > 0) || (r.SendBlocked? && r.pollSucceeds)
  }

  /** The next k replies take all that is needed, none of them is a failure, and none of the calls
      is made past the deadline. */
  ghost predicate Serves(env: nat -> SendReply, calls: nat, now: nat, expiry: int, need: nat, k: nat) {
    need <= Taken(env, calls, k) && forall i | 0 <= i < k :: GoesThrough(env, calls, now, expiry, i)
  }

  predicate GoesThrough(env: nat -> SendReply, calls: nat, now: nat, expiry: int, i: nat) {
    Usable(env(calls + i)) && Clock(env, calls, now, i) <= expiry
  }

  /** What is needed after the first reply. */
  function Left(need: nat, r: SendReply): nat {
    if r.Took? then need - Min(r.n, need) else need
  }

  lemma ServesOnward(env: nat -> SendReply, calls: nat, now: nat, expiry: int, need: nat, k: nat)
    ensures Serves(env, calls, now, expiry, need, k + 1)
      ==> Serves(env, calls + 1, now + Cost(env(calls)), expiry, Left(need, env(calls)), k)
    ensures Serves(env, calls + 1, now + Cost(env(calls)), expiry, Left(need, env(calls)), k)
        && Usable(env(calls)) && now <= expiry
      ==> Serves(env, calls, now, expiry, need, k + 1)
  {
    var calls', now' := calls + 1, now + Cost(env(calls));
    if Serves(env, calls, now, expiry, need, k + 1) {
      forall i | 0 <= i < k
        ensures GoesThrough(env, calls', now', expiry, i)
      {
        assert GoesThrough(env, calls, now, expiry, i + 1);
      }
    }
    if Serves(env, calls', now', expiry, Left(need, env(calls)), k) && Usable(env(calls)) && now <= expiry {
      forall i | 0 <= i < k + 1
        ensures GoesThrough(env, calls, now, expiry, i)
      {
        if i > 0 {
          assert GoesThrough(env, calls', now', expiry, i - 1);
        }
      }
    }
  }

  lemma {:induction false} ServedSucceeds(env: nat -> SendReply, calls: nat, now: nat, expiry: int, out: seq<Byte>,
                                          k: nat)
    requires Serves(env, calls, now, expiry, |out|, k)
    ensures Drain(env, calls, now, expiry, out).error.None?
    decreases k
  {
    if out != [] {
      assert GoesThrough(env, calls, now, expiry, 0);
      ServesOnward(env, calls, now, expiry, |out|, k - 1);
      var r := env(calls);
      ServedSucceeds(env, calls + 1, now + Cost(r), expiry, if r.Took? then out[Min(r.n, |out|)..] else out, k - 1);
    }
  }

  lemma {:induction false} SuccessIsServed(env: nat -> SendReply, calls: nat, now: nat, expiry: int, out: seq<Byte>)
    returns (k: nat)
    requires Drain(env, calls, now, expiry, out).error.None?
    ensures Serves(env, calls, now, expiry, |out|, k)
    decreases |out|, expiry - now
  {
    if out == [] {
      k := 0;
    } else {
      var r := env(calls);
      var k' := SuccessIsServed(env, calls + 1, now + Cost(r), expiry, if r.Took? then out[Min(r.n, |out|)..] else out);
      ServesOnward(env, calls, now, expiry, |out|, k');
      k := k' + 1;
    }
  }

  /** The send loop succeeds if and only if some number of replies take everything, without a failure
      among them and without a call past the deadline. */
  lemma DrainSucceedsIff(env: nat -> SendReply, calls: nat, now: nat, expiry: int, out: seq<Byte>)
    ensures Drain(env, calls, now, expiry, out).error.None?
      <==> exists k: nat :: Serves(env, calls, now, expiry, |out|, k)
  {
    if Drain(env, calls, now, expiry, out).error.None? {
      var k := SuccessIsServed(env, calls, now, expiry, out);
    }
    if exists k: nat :: Serves(env, calls, now, expiry, |out|, k) {
      var k: nat :| Serves(env, calls, now, expiry, |out|, k);
      ServedSucceeds(env, calls, now, expiry, out, k);
    }
  }

  /** The loop ends at the k-th further turn: so far every call went through and not everything has been
      taken, and then the deadline has passed or the reply is a failure. */
  ghost predicate FailsAt(env: nat -> SendReply, calls: nat, now: nat, expiry: int, need: nat, k: nat) {
    && (forall i | 0 <= i < k :: GoesThrough(env, calls, now, expiry, i))
    && Taken(env, calls, k) < need && !GoesThrough(env, calls, now, expiry, k)
  }

  /** What is reported when the loop ends at a reply. */
  function Failure(r: SendReply): Error {
    if r.Took? then NothingTaken else SystemError
  }

  /** Where the loop fails decides how: what the replies before have taken is sent, and the reason is the
      deadline or that very reply. */
  lemma {:induction false} FailureIsExact(env: nat -> SendReply, calls: nat, now: nat, expiry: int, out: seq<Byte>,
                                          k: nat)
    requires FailsAt(env, calls, now, expiry, |out|, k)
    ensures var late := expiry < Clock(env, calls, now, k);
      Drain(env, calls, now, expiry, out)
      == if late then Drained(Taken(env, calls, k), calls + k, Clock(env, calls, now, k), Some(TimedOut))
         else Drained(Taken(env, calls, k), calls + k + 1, Clock(env, calls, now, k + 1), Some(Failure(env(calls + k))))
    decreases k
  {
    var r := env(calls);
    if k > 0 {
      assert GoesThrough(env, calls, now, expiry, 0);
      FailsOnward(env, calls, now, expiry, |out|, k - 1);
      FailureIsExact(env, calls + 1, now + Cost(r), expiry, if r.Took? then out[Min(r.n, |out|)..] else out, k - 1);
    } else {
      assert Clock(env, calls, now, 1) == Clock(env, calls + 1, now + Cost(r), 0);
    }
  }

  lemma FailsOnward(env: nat -> SendReply, calls: nat, now: nat, expiry: int, need: nat, k: nat)
    requires GoesThrough(env, calls, now, expiry, 0)
    ensures FailsAt(env, calls, now, expiry, need, k + 1)
      <==> FailsAt(env, calls + 1, now + Cost(env(calls)), expiry, Left(need, env(calls)), k)
           && Left(need, env(calls)) > 0
  {
    var calls', now' := calls + 1, now + Cost(env(calls));
    forall i: nat
      ensures GoesThrough(env, calls', now', expiry, i) <==> GoesThrough(env, calls, now, expiry, i + 1)
    {
    }
    if forall i | 0 <= i < k + 1 :: GoesThrough(env, calls, now, expiry, i) {
      forall i | 0 <= i < k
        ensures GoesThrough(env, calls', now', expiry, i)
      {
        assert GoesThrough(env, calls, now, expiry, i + 1);
      }
    }
    if forall i | 0 <= i < k :: GoesThrough(env, calls', now', expiry, i) {
      forall i | 0 <= i < k + 1
        ensures GoesThrough(env, calls, now, expiry, i)
      {
        assert i > 0 ==> GoesThrough(env, calls', now', expiry, i - 1);
      }
    }
  }

  /** If it does not succeed, there is a turn at which it fails. */
  lemma {:induction false} FailsSomewhere(env: nat -> SendReply, calls: nat, now: nat, expiry: int, out: seq<Byte>)
    returns (k: nat)
    requires Drain(env, calls, now, expiry, out).error.Some?
    ensures FailsAt(env, calls, now, expiry, |out|, k)
    decreases |out|, expiry - now
  {
    if !GoesThrough(env, calls, now, expiry, 0) {
      k := 0;
    } else {
      var r := env(calls);
      var k' := FailsSomewhere(env, calls + 1, now + Cost(r), expiry, if r.Took? then out[Min(r.n, |out|)..] else out);
      FailsOnward(env, calls, now, expiry, |out|, k');
      k := k' + 1;
    }
  }

  /** The i-th further reply takes a byte, and the loop gets that far. */
  ghost predicate TakesAt(env: nat -> SendReply, calls: nat, now: nat, expiry: int, i: nat) {
    env(calls + i).Took? && forall j | 0 <= j <= i :: GoesThrough(env, calls, now, expiry, j)
  }

  /** A reply takes a byte before any fails or comes too late. */
  ghost predicate SomeTakes(env: nat -> SendReply, calls: nat, now: nat, expiry: int) {
    exists i: nat :: TakesAt(env, calls, now, expiry, i)
  }

  /** With something to send, the loop sends something if and only if a reply takes a byte before any
      fails or comes too late. */
  lemma {:induction false} SendsIff(env: nat -> SendReply, calls: nat, now: nat, expiry: int, out: seq<Byte>)
    requires out != []
    ensures Drain(env, calls, now, expiry, out).sent > 0 <==> SomeTakes(env, calls, now, expiry)
    decreases expiry - now
  {
    if !GoesThrough(env, calls, now, expiry, 0) {
      assert forall i: nat :: !TakesAt(env, calls, now, expiry, i);
    } else if env(calls).Took? {
      assert TakesAt(env, calls, now, expiry, 0);
    } else {
      SendsIff(env, calls + 1, now + Cost(env(calls)), expiry, out);
      TakesLater(env, calls, now, expiry);
    }
  }

  /** A reply that lets the loop wait leaves the question to those after it. */
  lemma TakesLater(env: nat -> SendReply, calls: nat, now: nat, expiry: int)
    requires GoesThrough(env, calls, now, expiry, 0) && !env(calls).Took?
    ensures SomeTakes(env, calls, now, expiry) <==> SomeTakes(env, calls + 1, now + Cost(env(calls)), expiry)
  {
    var calls', now' := calls + 1, now + Cost(env(calls));
    if SomeTakes(env, calls, now, expiry) {
      var i: nat :| TakesAt(env, calls, now, expiry, i);
      forall j | 0 <= j <= i - 1
        ensures GoesThrough(env, calls', now', expiry, j)
      {
        assert GoesThrough(env, calls, now, expiry, j + 1);
      }
      assert TakesAt(env, calls', now', expiry, i - 1);
    }
    if SomeTakes(env, calls', now', expiry) {
      var i: nat :| TakesAt(env, calls', now', expiry, i);
      forall j | 0 <= j <= i + 1
        ensures GoesThrough(env, calls, now, expiry, j)
      {
        if j > 0 {
          assert GoesThrough(env, calls', now', expiry, j - 1);
        }
      }
      assert TakesAt(env, calls, now, expiry, i + 1);
    }
  }

  // ---------------------------------------------------------------- output

  /** The output half: the put area's contents, and the bytes the socket has taken so far. */
  datatype Out = Out(buffered: bool, pending: seq<Byte>, wire: seq<Byte>, calls: nat, now: nat, expiry: int) {
    predicate Valid() {
      |pending| <= if buffered then BUFFER_SIZE else 0
    }
  }

  datatype OutResult = OutResult(s: Out, error: Option<Error>)

  /** overflow(c), where no c stands for eof: everything pending goes out before c is accepted. */
  function Overflow(env: nat -> SendReply, s: Out, c: Option<Byte>): OutResult {
    if !s.buffered && c.None? then OutResult(s, None)
    else
      var out := if s.buffered then s.pending else [c.value];
      var d := Drain(env, s.calls, s.now, s.expiry, out);
      DrainIsExact(env, s.calls, s.now, s.expiry, out);
      var s' := s.(wire := s.wire + out[..d.sent], calls := d.calls, now := d.now);
      if d.error.Some? || !s.buffered then OutResult(s', d.error)
      else OutResult(s'.(pending := if c.Some? then [c.value] else []), None)
  }

  datatype OutOp = Put(c: Byte) | Sync | SetUnbuffered | SetExpiry(t: int)

  /** sputc, pubsync, pubsetbuf(0, 0) and expires_at. */
  function OutStep(env: nat -> SendReply, s: Out, op: OutOp): OutResult {
    match op
    case Put(c) =>
      if s.buffered && |s.pending| < BUFFER_SIZE then OutResult(s.(pending := s.pending + [c]), None)
      else Overflow(env, s, Some(c))
    case Sync => Overflow(env, s, None)
    case SetUnbuffered => if s.pending == [] then OutResult(s.(buffered := false), None) else OutResult(s, None)
    case SetExpiry(t) => OutResult(s.(expiry := t), None)
  }

  /** A failed overflow has put a strict prefix of what it was to send on the wire, keeps the put
      area as it was and does not take the character. */
  lemma FailedOverflowSendsStrictPrefix(env: nat -> SendReply, s: Out, c: Option<Byte>)
    requires Overflow(env, s, c).error.Some?
    ensures s.buffered || c.Some?
    ensures var r, out := Overflow(env, s, c), if s.buffered then s.pending else [c.value];
      && r.s.pending == s.pending && r.s.buffered == s.buffered
      && s.wire <= r.s.wire && r.s.wire[|s.wire|..] < out
  {
    var out := if s.buffered then s.pending else [c.value];
    DrainIsExact(env, s.calls, s.now, s.expiry, out);
    var d := Drain(env, s.calls, s.now, s.expiry, out);
    assert (s.wire + out[..d.sent])[|s.wire|..] == out[..d.sent];
  }

  /** A successful overflow has put everything pending on the wire, once and in order; then the
      character is pending, or on the wire too if the stream is unbuffered. */
  lemma SuccessfulOverflowSendsAll(env: nat -> SendReply, s: Out, c: Option<Byte>)
    requires s.Valid() && Overflow(env, s, c).error.None?
    ensures var s' := Overflow(env, s, c).s;
      && s'.Valid() && s'.buffered == s.buffered
      && s'.wire + s'.pending == s.wire + s.pending + (if c.Some? then [c.value] else [])
      && (s.buffered ==> s'.wire == s.wire + s.pending)
  {
    if s.buffered || c.Some? {
      var out := if s.buffered then s.pending else [c.value];
      DrainIsExact(env, s.calls, s.now, s.expiry, out);
      assert out[..|out|] == out;
    }
  }

  /** A failed flush that is retried with success sends the bytes of the first attempt again: the
      wire has the bytes pending once, in order, if and only if no reply to the first attempt took a
      byte before one failed or came too late. */
  lemma RetryRepeatsThePrefix(env: nat -> SendReply, s: Out)
    requires s.Valid() && s.buffered
    requires Overflow(env, s, None).error.Some? && Overflow(env, Overflow(env, s, None).s, None).error.None?
    ensures var s1 := Overflow(env, s, None).s;
      var s2, k := Overflow(env, s1, None).s, |s1.wire| - |s.wire|;
      && 0 <= k < |s.pending|
      && s1.wire == s.wire + s.pending[..k] && s2.wire == s.wire + s.pending[..k] + s.pending
      && (s2.wire == s.wire + s.pending <==> !SomeTakes(env, s.calls, s.now, s.expiry))
  {
    SendsIff(env, s.calls, s.now, s.expiry, s.pending);
    var s1 := Overflow(env, s, None).s;
    DrainIsExact(env, s.calls, s.now, s.expiry, s.pending);
    SuccessfulOverflowSendsAll(env, s1, None);
    var k := Drain(env, s.calls, s.now, s.expiry, s.pending).sent;
    assert s1.wire == s.wire + s.pending[..k];
    var s2 := Overflow(env, s1, None).s;
    assert |s2.wire| == |s.wire| + k + |s.pending|;
    assert k == 0 ==> s.pending[..k] == [];
  }

  /** setbuf(0, 0) is honoured exactly while nothing is pending; and then every character accepted is on
      the wire at once. */
  lemma HonouredSetbufUnbuffers(env: nat -> SendReply, s: Out, c: Byte)
    requires s.Valid()
    ensures s.pending != [] ==> OutStep(env, s, SetUnbuffered) == OutResult(s, None)
    ensures s.pending == [] ==>
      var u := OutStep(env, s, SetUnbuffered).s;
      var r := OutStep(env, u, Put(c));
      && u == Out(false, [], s.wire, s.calls, s.now, s.expiry) && r.s.pending == []
      && r.s.wire == if r.error.None? then s.wire + [c] else s.wire
  {
    if s.pending == [] {
      var u := OutStep(env, s, SetUnbuffered).s;
      DrainIsExact(env, u.calls, u.now, u.expiry, [c]);
    }
  }

  /** Setting an expiry time changes nothing else; if it has passed already, a flush of anything fails
      and sends nothing, and a flush that times out has passed it. */
  lemma ExpiryCounts(env: nat -> SendReply, s: Out, t: int)
    requires s.buffered && s.pending != []
    ensures var s' := OutStep(env, s, SetExpiry(t)).s;
      var r := OutStep(env, s', Sync);
      && s' == Out(true, s.pending, s.wire, s.calls, s.now, t)
      && (t < s.now ==> r == OutResult(s', Some(TimedOut)))
      && (r.error == Some(TimedOut) ==> t < r.s.now)
  {
    TimeOutMeansLate(env, s.calls, s.now, t, s.pending);
  }

  /** A socket that takes one byte, then fails, then takes two. */
  function FailsOnce(i: nat): SendReply {
    if i == 0 then Took(1, 0) else if i == 1 then SendFailed(0) else Took(2, 0)
  }

  /** On it, two bytes flushed twice are three bytes on the wire. */
  lemma FlushRepeats() returns (s: Out)
    ensures s == Out(true, [5, 6], [], 0, 0, 9) && s.Valid()
    ensures Overflow(FailsOnce, s, None).error.Some?
    ensures var s2 := Overflow(FailsOnce, Overflow(FailsOnce, s, None).s, None);
      s2.error.None? && s2.s.wire == [5, 5, 6]
  {
    s := Out(true, [5, 6], [], 0, 0, 9);
    assert Drain(FailsOnce, 1, 0, 9, [6]) == Drained(0, 2, 0, Some(SystemError));
    assert [5, 6][1..] == [6];
    var s1 := Overflow(FailsOnce, s, None).s;
    assert s1 == Out(true, [5, 6], [5], 2, 0, 9);
    assert [5, 6][2..] == [];
    assert Drain(FailsOnce, 2, 0, 9, [5, 6]) == Drained(2, 3, 0, None);
  }

  /** close(): a flush whose outcome is ignored, then the socket is closed; if that works the put
      area is reset and success is reported. */
  function Close(env: nat -> SendReply, s: Out, socketCloses: bool): OutResult {
    var s' := Overflow(env, s, None).s;
    if socketCloses then OutResult(s'.(pending := []), None) else OutResult(s', Some(SystemError))
  }

  /** A close that reports success has delivered the put area if and only if its flush succeeded. */
  lemma CloseDeliversIffFlushed(env: nat -> SendReply, s: Out)
    requires s.Valid()
    ensures Close(env, s, true).error.None? && Close(env, s, true).s.pending == []
    ensures Close(env, s, true).s.wire == s.wire + s.pending <==> Overflow(env, s, None).error.None?
    ensures Close(env, s, false) == OutResult(Overflow(env, s, None).s, Some(SystemError))
  {
    if Overflow(env, s, None).error.Some? {
      FailedOverflowSendsStrictPrefix(env, s, None);
    } else {
      SuccessfulOverflowSendsAll(env, s, None);
    }
  }

  /** In terms of the socket's replies: if and only if some number of them take everything pending,
      with no failure among them and no call past the deadline. */
  lemma CloseDeliversIff(env: nat -> SendReply, s: Out)
    requires s.Valid()
    ensures Close(env, s, true).s.wire == s.wire + s.pending
      <==> exists k: nat :: Serves(env, s.calls, s.now, s.expiry, |s.pending|, k)
  {
    CloseDeliversIffFlushed(env, s);
    DrainSucceedsIff(env, s.calls, s.now, s.expiry, s.pending);
  }

  /** A close that reports success and has lost a byte: the socket fails at the first call. */
  lemma CloseLoses(s: Out)
    requires s == Out(true, [5], [], 1, 0, 9)
    ensures Close(FailsOnce, s, true).error.None? && Close(FailsOnce, s, true).s == Out(true, [], [], 2, 0, 9)
  {
  }

  /**
   * A run of the output half with its history: the characters accepted, the bytes sent by
   * overflows that succeeded, and how many bytes overflows that failed had already sent.
   */
  datatype OutLedger = OutLedger(s: Out, accepted: seq<Byte>, delivered: seq<Byte>, wasted: nat)

  function OutRecord(env: nat -> SendReply, l: OutLedger, op: OutOp): OutLedger {
    var r := OutStep(env, l.s, op);
    var sent := |r.s.wire| - |l.s.wire|;
    if r.error.Some? then l.(s := r.s, wasted := l.wasted + Max(0, sent))
    else
      OutLedger(r.s, if op.Put? then l.accepted + [op.c] else l.accepted,
                l.delivered + r.s.wire[Min(|l.s.wire|, |r.s.wire|)..], l.wasted)
  }

  function OutRun(env: nat -> SendReply, l: OutLedger, ops: seq<OutOp>): OutLedger
    decreases |ops|
  {
    if ops == [] then l else OutRun(env, OutRecord(env, l, ops[0]), ops[1..])
  }

  ghost predicate OutBalanced(l: OutLedger) {
    && l.s.Valid()
    && l.delivered + l.s.pending == l.accepted
    && |l.s.wire| == |l.delivered| + l.wasted
    && (l.wasted == 0 ==> l.s.wire == l.delivered)
  }

  lemma OutStepBalanced(env: nat -> SendReply, l: OutLedger, op: OutOp)
    requires OutBalanced(l)
    ensures OutBalanced(OutRecord(env, l, op))
  {
    var s, r := l.s, OutStep(env, l.s, op);
    if op.Sync? || (op.Put? && !(s.buffered && |s.pending| < BUFFER_SIZE)) {
      var c := if op.Put? then Some(op.c) else None;
      if r.error.Some? {
        FailedOverflowSendsStrictPrefix(env, s, c);
      } else {
        SuccessBalanced(env, l, c);
      }
    }
  }

  lemma SuccessBalanced(env: nat -> SendReply, l: OutLedger, c: Option<Byte>)
    requires OutBalanced(l) && Overflow(env, l.s, c).error.None?
    ensures var s' := Overflow(env, l.s, c).s;
      && |l.s.wire| <= |s'.wire|
      && OutBalanced(OutLedger(s', if c.Some? then l.accepted + [c.value] else l.accepted,
                               l.delivered + s'.wire[|l.s.wire|..], l.wasted))
  {
    var s, s', more := l.s, Overflow(env, l.s, c).s, if c.Some? then [c.value] else [];
    SuccessfulOverflowSendsAll(env, s, c);
    OverflowExtendsWire(env, s, c);
    var tail := s'.wire[|s.wire|..];
    assert s'.wire == s.wire + tail;
    AppendCancels(s.wire, tail + s'.pending, s.pending + more);
    assert l.delivered + tail + s'.pending == l.delivered + s.pending + more;
  }

  lemma OverflowExtendsWire(env: nat -> SendReply, s: Out, c: Option<Byte>)
    ensures s.wire <= Overflow(env, s, c).s.wire
  {
  }

  lemma AppendCancels(a: seq<Byte>, b: seq<Byte>, c: seq<Byte>)
    requires a + b == a + c
    ensures b == c
  {
    assert (a + b)[|a|..] == b && (a + c)[|a|..] == c;
  }

  /**
   * Over every run, whatever the socket answers: the bytes on the wire followed by the put area
   * are exactly the characters accepted, once and in order, if and only if no overflow failed
   * after sending part of the put area.
   */
  lemma {:induction false} OutputConservation(env: nat -> SendReply, l: OutLedger, ops: seq<OutOp>)
    requires OutBalanced(l)
    ensures var l' := OutRun(env, l, ops);
      && OutBalanced(l')
      && (l'.s.wire + l'.s.pending == l'.accepted <==> l'.wasted == 0)
    decreases |ops|
  {
    if ops == [] {
      if l.s.wire + l.s.pending == l.accepted {
        assert |l.s.wire + l.s.pending| == |l.delivered + l.s.pending|;
      }
    } else {
      OutStepBalanced(env, l, ops[0]);
      OutputConservation(env, OutRecord(env, l, ops[0]), ops[1..]);
    }
  }

  /** Output conservation for a newly constructed stream buffer. */
  lemma OutputConservationFromConstruction(env: nat -> SendReply, now: nat, expiry: int, ops: seq<OutOp>)
    ensures var l := OutRun(env, OutLedger(Out(true, [], [], 0, now, expiry), [], [], 0), ops);
      l.s.Valid() && (l.s.wire + l.s.pending == l.accepted <==> l.wasted == 0)
  {
    OutputConservation(env, OutLedger(Out(true, [], [], 0, now, expiry), [], [], 0), ops);
  }

  // ---------------------------------------------------------------- input

  datatype Received = Received(bytes: seq<Byte>, calls: nat, now: nat, error: Option<Error>)

  /** Waits until recv gives at least one byte, or the deadline, the end or an error is reached.
      recv is offered the array behind the putback slots, so it gives no more than that. */
  function Await(env: nat -> RecvReply, calls: nat, now: nat, expiry: int): (r: Received)
    ensures |r.bytes| <= ROOM && (r.error.None? <==> r.bytes != [])
    decreases expiry - now
  {
    if expiry < now then Received([], calls, now, Some(TimedOut))
    else match env(calls)
      case Gave(bytes, elapsed) =>
        if bytes == [] then Received([], calls + 1, now + elapsed, Some(EndOfFile))
        else Received(bytes[..Min(|bytes|, ROOM)], calls + 1, now + elapsed, None)
      case RecvBlocked(elapsed, pollSucceeds) =>
        if !pollSucceeds then Received([], calls + 1, now + 1 + elapsed, Some(SystemError))
        else Await(env, calls + 1, now + 1 + elapsed, expiry)
      case RecvFailed(elapsed) => Received([], calls + 1, now + elapsed, Some(SystemError))
  }

  /** The time a reply takes. */
  function Delay(r: RecvReply): nat {
    if r.RecvBlocked? then 1 + r.elapsed else r.elapsed
  }

  /** The clock before the k-th further call. */
  function RecvClock(env: nat -> RecvReply, calls: nat, now: nat, k: nat): nat
    decreases k
  {
    if k == 0 then now else RecvClock(env, calls + 1, now + Delay(env(calls)), k - 1)
  }

  /** The socket would have blocked and then became readable, before the deadline: the loop goes on. */
  predicate TriesAgain(env: nat -> RecvReply, calls: nat, now: nat, expiry: int, i: nat) {
    RecvClock(env, calls, now, i) <= expiry && env(calls + i).RecvBlocked? && env(calls + i).pollSucceeds
  }

  /** The loop ends at the k-th further turn, and not before. */
  ghost predicate EndsAt(env: nat -> RecvReply, calls: nat, now: nat, expiry: int, k: nat) {
    && (forall i | 0 <= i < k :: TriesAgain(env, calls, now, expiry, i))
    && !TriesAgain(env, calls, now, expiry, k)
  }

  /** The bytes a call of recv gives, which is offered the array behind the putback slots. */
  function GivenBy(r: RecvReply): seq<Byte> {
    if r.Gave? then r.bytes[..Min(|r.bytes|, ROOM)] else []
  }

  /** What the last reply comes down to. */
  function ReasonOf(r: RecvReply): Option<Error> {
    match r
    case Gave(bytes, _) => if bytes == [] then Some(EndOfFile) else None
    case RecvBlocked(_, _) => Some(SystemError)
    case RecvFailed(_) => Some(SystemError)
  }

  lemma EndsOnward(env: nat -> RecvReply, calls: nat, now: nat, expiry: int, k: nat)
    requires TriesAgain(env, calls, now, expiry, 0)
    ensures EndsAt(env, calls, now, expiry, k + 1) <==> EndsAt(env, calls + 1, now + Delay(env(calls)), expiry, k)
  {
    var calls', now' := calls + 1, now + Delay(env(calls));
    forall i: nat
      ensures TriesAgain(env, calls', now', expiry, i) <==> TriesAgain(env, calls, now, expiry, i + 1)
    {
    }
    if EndsAt(env, calls, now, expiry, k + 1) {
      forall i | 0 <= i < k
        ensures TriesAgain(env, calls', now', expiry, i)
      {
        assert TriesAgain(env, calls, now, expiry, i + 1);
      }
    }
    if EndsAt(env, calls', now', expiry, k) {
      forall i | 0 <= i < k + 1
        ensures TriesAgain(env, calls, now, expiry, i)
      {
        assert i > 0 ==> TriesAgain(env, calls', now', expiry, i - 1);
      }
    }
  }

  /** The receive loop ends at some turn. */
  lemma {:induction false} EndsSomewhere(env: nat -> RecvReply, calls: nat, now: nat, expiry: int) returns (k: nat)
    ensures EndsAt(env, calls, now, expiry, k)
    decreases expiry - now
  {
    if TriesAgain(env, calls, now, expiry, 0) {
      var k' := EndsSomewhere(env, calls + 1, now + Delay(env(calls)), expiry);
      EndsOnward(env, calls, now, expiry, k');
      k := k' + 1;
    } else {
      k := 0;
    }
  }

  /** Where it ends decides what results: a time-out if the deadline has passed by then, and otherwise
      the bytes of that very reply, the end of file or an error, as the reply says. */
  lemma {:induction false} AwaitIsExact(env: nat -> RecvReply, calls: nat, now: nat, expiry: int, k: nat)
    requires EndsAt(env, calls, now, expiry, k)
    ensures var last := env(calls + k);
      Await(env, calls, now, expiry)
      == if expiry < RecvClock(env, calls, now, k)
         then Received([], calls + k, RecvClock(env, calls, now, k), Some(TimedOut))
         else Received(GivenBy(last), calls + k + 1, RecvClock(env, calls, now, k + 1), ReasonOf(last))
    decreases k
  {
    if k > 0 {
      assert TriesAgain(env, calls, now, expiry, 0);
      EndsOnward(env, calls, now, expiry, k - 1);
      AwaitIsExact(env, calls + 1, now + Delay(env(calls)), expiry, k - 1);
    } else {
      assert RecvClock(env, calls, now, 1) == RecvClock(env, calls + 1, now + Delay(env(calls)), 0);
    }
  }

  /** The first k replies let the loop try again in time, and the next, in time too, gives something. */
  ghost predicate GivesAt(env: nat -> RecvReply, calls: nat, now: nat, expiry: int, k: nat) {
    && (forall i | 0 <= i < k :: TriesAgain(env, calls, now, expiry, i))
    && RecvClock(env, calls, now, k) <= expiry && env(calls + k).Gave? && env(calls + k).bytes != []
  }

  /** The receive loop succeeds if and only if the socket becomes readable, as often as it would have
      blocked, until it gives something, with no call past the deadline. */
  lemma AwaitSucceedsIff(env: nat -> RecvReply, calls: nat, now: nat, expiry: int)
    ensures Await(env, calls, now, expiry).error.None? <==> exists k: nat :: GivesAt(env, calls, now, expiry, k)
  {
    if k: nat :| GivesAt(env, calls, now, expiry, k) {
      AwaitIsExact(env, calls, now, expiry, k);
    }
    var k := EndsSomewhere(env, calls, now, expiry);
    AwaitIsExact(env, calls, now, expiry, k);
    assert Await(env, calls, now, expiry).error.None? ==> GivesAt(env, calls, now, expiry, k);
  }

  /** What a number of calls of recv give, one after the other. */
  function GivenFrom(env: nat -> RecvReply, calls: nat, k: nat): seq<Byte>
    decreases k
  {
    if k == 0 then [] else GivenBy(env(calls)) + GivenFrom(env, calls + 1, k - 1)
  }

  lemma {:induction false} AwaitGives(env: nat -> RecvReply, calls: nat, now: nat, expiry: int)
    ensures var r := Await(env, calls, now, expiry);
      r.calls >= calls && r.bytes == GivenFrom(env, calls, r.calls - calls)
    decreases expiry - now
  {
    if now <= expiry {
      if env(calls).RecvBlocked? && env(calls).pollSucceeds {
        AwaitGives(env, calls + 1, now + 1 + env(calls).elapsed, expiry);
      } else {
        assert GivenFrom(env, calls + 1, 0) == [];
      }
    }
  }

  datatype In = In(store: seq<Byte>, g: int, eg: int, calls: nat, now: nat, expiry: int) {
    predicate Valid() {
      && |store| == BUFFER_SIZE
      && 0 <= g <= eg <= BUFFER_SIZE
      && PUTBACK_MAX <= eg
    }
  }

  datatype InResult = InResult(s: In, ret: Option<Byte>, error: Option<Error>)

  /** underflow(): refused, without any effect, while the get area still holds something. */
  ghost function Underflow(env: nat -> RecvReply, s: In): InResult
    requires s.Valid()
  {
    if s.g != s.eg then InResult(s, None, None)
    else
      var r := Await(env, s.calls, s.now, s.expiry);
      var s' := s.(calls := r.calls, now := r.now);
      if r.error.Some? then InResult(s', None, r.error)
      else
        var eg := PUTBACK_MAX + |r.bytes|;
        InResult(s'.(store := Patched(s.store, PUTBACK_MAX, r.bytes), g := PUTBACK_MAX, eg := eg),
                 Some(r.bytes[0]), None)
  }

  datatype InOp = Sgetc | Sbumpc | Sungetc | SetInExpiry(t: int)

  ghost function InStep(env: nat -> RecvReply, s: In, op: InOp): InResult
    requires s.Valid()
  {
    match op
    case Sgetc => if s.g < s.eg then InResult(s, Some(s.store[s.g]), None) else Underflow(env, s)
    case Sbumpc =>
      if s.g < s.eg then InResult(s.(g := s.g + 1), Some(s.store[s.g]), None)
      else
        var r := Underflow(env, s);
        if r.ret.Some? then r.(s := r.s.(g := r.s.g + 1)) else r
    case Sungetc =>
      if 0 < s.g then InResult(s.(g := s.g - 1), Some(s.store[s.g - 1]), None) else InResult(s, None, None)
    case SetInExpiry(t) => InResult(s.(expiry := t), None, None)
  }

  /** A run of the input half: everything recv gave, and everything the reader has taken. */
  datatype InLedger = InLedger(s: In, received: seq<Byte>, taken: seq<Byte>)

  /** The bytes recv gives during a step: those of the calls made in it. */
  ghost function Arriving(env: nat -> RecvReply, s: In, s': In): seq<Byte> {
    if s.calls <= s'.calls then GivenFrom(env, s.calls, s'.calls - s.calls) else []
  }

  ghost function InRecord(env: nat -> RecvReply, l: InLedger, op: InOp): InLedger
    requires l.s.Valid()
  {
    var r := InStep(env, l.s, op);
    InLedger(r.s, l.received + Arriving(env, l.s, r.s),
             if op.Sbumpc? && r.ret.Some? then l.taken + [r.ret.value]
             else if op.Sungetc? && r.ret.Some? && l.taken != [] then l.taken[..|l.taken| - 1]
             else l.taken)
  }

  ghost predicate InBalanced(l: InLedger) {
    && l.s.Valid()
    && PUTBACK_MAX <= l.s.g
    && l.received == l.taken + l.s.store[l.s.g..l.s.eg]
    && TakesBack(l.taken, l.s.store, l.s.g, l.s.g - PUTBACK_MAX)
  }

  /** The eight putback slots are not filled from earlier input, so a putback is only claimed for
      what has been read since the last refill. */
  ghost predicate InAdmissible(l: InLedger, op: InOp) {
    op.Sungetc? ==> PUTBACK_MAX < l.s.g
  }

  ghost predicate InAdmissibleRun(env: nat -> RecvReply, l: InLedger, ops: seq<InOp>)
    decreases |ops|
  {
    ops != [] ==>
      && l.s.Valid() && InAdmissible(l, ops[0])
      && InAdmissibleRun(env, InRecord(env, l, ops[0]), ops[1..])
  }

  ghost function InRun(env: nat -> RecvReply, l: InLedger, ops: seq<InOp>): InLedger
    requires InAdmissibleRun(env, l, ops)
    decreases |ops|
  {
    if ops == [] then l else InRun(env, InRecord(env, l, ops[0]), ops[1..])
  }

  /** A refill is only ever taken with an empty get area, fits behind the putback slots, and puts
      exactly the bytes received there. */
  lemma RefillIsExact(env: nat -> RecvReply, s: In)
    requires s.Valid() && s.g == s.eg
    ensures var r, a := Underflow(env, s), Await(env, s.calls, s.now, s.expiry);
      && r.s.Valid() && r.error == a.error
      && (a.error.None? ==> r.s.g == PUTBACK_MAX && r.s.store[r.s.g..r.s.eg] == a.bytes && r.ret == Some(a.bytes[0]))
      && (a.error.Some? ==> r.ret.None? && r.s.g == s.g && r.s.eg == s.eg && r.s.store == s.store)
  {
  }

  /** Reading the next unread byte hands it to the reader. */
  lemma AdvanceBalanced(l: InLedger)
    requires InBalanced(l) && l.s.g < l.s.eg
    ensures InBalanced(l.(s := l.s.(g := l.s.g + 1), taken := l.taken + [l.s.store[l.s.g]]))
  {
    assert l.s.store[l.s.g..l.s.eg] == [l.s.store[l.s.g]] + l.s.store[l.s.g + 1..l.s.eg];
  }

  /** The ledger after a refill, before anything is taken. */
  ghost function Refilled(env: nat -> RecvReply, l: InLedger): InLedger
    requires l.s.Valid()
  {
    var s' := Underflow(env, l.s).s;
    l.(s := s', received := l.received + Arriving(env, l.s, s'))
  }

  /** Refilling an empty get area leaves everything received unread. */
  lemma RefillBalanced(env: nat -> RecvReply, l: InLedger)
    requires InBalanced(l) && l.s.g == l.s.eg
    ensures InBalanced(Refilled(env, l))
  {
    RefillIsExact(env, l.s);
    RefillArrives(env, l.s);
  }

  lemma RefillArrives(env: nat -> RecvReply, s: In)
    requires s.Valid() && s.g == s.eg
    ensures Arriving(env, s, Underflow(env, s).s) == Await(env, s.calls, s.now, s.expiry).bytes
  {
    AwaitGives(env, s.calls, s.now, s.expiry);
  }

  lemma PutbackBalanced(l: InLedger)
    requires InBalanced(l) && PUTBACK_MAX < l.s.g
    ensures l.taken != []
    ensures InBalanced(l.(s := l.s.(g := l.s.g - 1), taken := l.taken[..|l.taken| - 1]))
  {
    var k, g := |l.taken|, l.s.g;
    assert l.s.store[g - 1] == l.taken[k - 1];
    assert l.taken == l.taken[..k - 1] + [l.s.store[g - 1]];
    assert l.s.store[g - 1..l.s.eg] == [l.s.store[g - 1]] + l.s.store[g..l.s.eg];
  }

  lemma SbumpcBalanced(env: nat -> RecvReply, l: InLedger)
    requires InBalanced(l)
    ensures InBalanced(InRecord(env, l, Sbumpc))
  {
    if l.s.g < l.s.eg {
      AdvanceBalanced(l);
      assert l.received + [] == l.received;
    } else {
      RefillBalanced(env, l);
      RefillIsExact(env, l.s);
      SbumpcRefills(env, l);
      if Underflow(env, l.s).ret.Some? {
        AdvanceBalanced(Refilled(env, l));
      }
    }
  }

  lemma SbumpcRefills(env: nat -> RecvReply, l: InLedger)
    requires l.s.Valid() && l.s.g == l.s.eg
    ensures var r, f := Underflow(env, l.s), Refilled(env, l);
      InRecord(env, l, Sbumpc)
      == if r.ret.Some? then f.(s := f.s.(g := f.s.g + 1), taken := l.taken + [r.ret.value]) else f
  {
  }

  lemma InStepBalanced(env: nat -> RecvReply, l: InLedger, op: InOp)
    requires InBalanced(l) && InAdmissible(l, op)
    ensures InBalanced(InRecord(env, l, op))
  {
    assert l.received + [] == l.received;
    match op
    case Sgetc => if l.s.g == l.s.eg { RefillBalanced(env, l); }
    case Sbumpc => SbumpcBalanced(env, l);
    case Sungetc => PutbackBalanced(l);
    case SetInExpiry(_) =>
  }

  /**
   * Over every admissible run, whatever the socket answers: the bytes the reader has taken
   * followed by the unread part of the get area are exactly the bytes recv gave, once and in order.
   */
  lemma {:induction false} InputConservation(env: nat -> RecvReply, l: InLedger, ops: seq<InOp>)
    requires InBalanced(l) && InAdmissibleRun(env, l, ops)
    ensures InBalanced(InRun(env, l, ops))
    decreases |ops|
  {
    if ops != [] {
      InStepBalanced(env, l, ops[0]);
      InputConservation(env, InRecord(env, l, ops[0]), ops[1..]);
    }
  }

  lemma FirstGiven(env: nat -> RecvReply, calls: nat, k: nat)
    requires k > 0
    ensures GivenFrom(env, calls, k) == GivenBy(env(calls)) + GivenFrom(env, calls + 1, k - 1)
  {
  }

  lemma {:induction false} GivenJoin(env: nat -> RecvReply, calls: nat, j: nat, k: nat)
    ensures GivenFrom(env, calls, j + k) == GivenFrom(env, calls, j) + GivenFrom(env, calls + j, k)
    decreases j
  {
    if j > 0 {
      GivenJoin(env, calls + 1, j - 1, k);
      FirstGiven(env, calls, j);
      FirstGiven(env, calls, j + k);
      Associates(GivenBy(env(calls)), GivenFrom(env, calls + 1, j - 1), GivenFrom(env, calls + j, k));
    }
  }

  /** What has been received is what all the calls made so far have given. */
  lemma {:induction false} ReceivedIsGiven(env: nat -> RecvReply, l: InLedger, ops: seq<InOp>)
    requires InBalanced(l) && InAdmissibleRun(env, l, ops) && l.received == GivenFrom(env, 0, l.s.calls)
    ensures var l' := InRun(env, l, ops); l'.received == GivenFrom(env, 0, l'.s.calls)
    decreases |ops|
  {
    if ops != [] {
      InStepBalanced(env, l, ops[0]);
      OneMoreReceived(env, l, ops[0]);
      ReceivedIsGiven(env, InRecord(env, l, ops[0]), ops[1..]);
    }
  }

  lemma OneMoreReceived(env: nat -> RecvReply, l: InLedger, op: InOp)
    requires l.s.Valid() && l.received == GivenFrom(env, 0, l.s.calls)
    ensures var l' := InRecord(env, l, op); l'.received == GivenFrom(env, 0, l'.s.calls)
  {
    CallsGrow(env, l.s, op);
    GivenJoin(env, 0, l.s.calls, InStep(env, l.s, op).s.calls - l.s.calls);
  }

  lemma CallsGrow(env: nat -> RecvReply, s: In, op: InOp)
    requires s.Valid()
    ensures s.calls <= InStep(env, s, op).s.calls
  {
    AwaitGives(env, s.calls, s.now, s.expiry);
  }

  /** Input conservation for a newly constructed stream buffer, in terms of the socket alone: what the
      calls of recv have given, each up to the room behind the putback slots, has been taken or is
      unread, once and in order. */
  lemma InputConservationFromConstruction(env: nat -> RecvReply, now: nat, expiry: int, ops: seq<InOp>)
    requires InAdmissibleRun(env, NewInput(now, expiry), ops)
    ensures var l := InRun(env, NewInput(now, expiry), ops);
      l.s.Valid() && GivenFrom(env, 0, l.s.calls) == l.taken + l.s.store[l.s.g..l.s.eg]
  {
    InputConservation(env, NewInput(now, expiry), ops);
    ReceivedIsGiven(env, NewInput(now, expiry), ops);
  }

  /** A peek shows the first byte received that has not been taken, and takes nothing; taking a byte
      takes that one.  Both fail only if nothing is unread and nothing arrives. */
  lemma PeekShowsTheNext(env: nat -> RecvReply, l: InLedger)
    requires InBalanced(l)
    ensures var peeked, ret := InRecord(env, l, Sgetc), InStep(env, l.s, Sgetc).ret;
      && InBalanced(peeked) && peeked.taken == l.taken
      && (ret.Some? <==> |l.taken| < |peeked.received|)
      && (ret.Some? ==> ret.value == peeked.received[|l.taken|])
      && InStep(env, l.s, Sbumpc).ret == ret
      && (ret.Some? ==> InStep(env, peeked.s, Sbumpc).ret == ret)
  {
    InStepBalanced(env, l, Sgetc);
    if l.s.g == l.s.eg {
      RefillIsExact(env, l.s);
    }
  }

  /** A putback shows the byte that was taken last. */
  lemma PutbackShowsTheLast(env: nat -> RecvReply, l: InLedger)
    requires InBalanced(l) && InAdmissible(l, Sungetc)
    ensures l.taken != [] && InStep(env, l.s, Sungetc).ret == Some(l.taken[|l.taken| - 1])
    ensures var back := InRecord(env, l, Sungetc); InBalanced(back) && back.taken == l.taken[..|l.taken| - 1]
  {
    PutbackBalanced(l);
    InStepBalanced(env, l, Sungetc);
  }

  /** Once a new expiry time is set, a refill that needs the socket fails at once if it has passed. */
  lemma InExpiryCounts(env: nat -> RecvReply, s: In, t: int)
    requires s.Valid() && s.g == s.eg
    ensures var s' := InStep(env, s, SetInExpiry(t)).s;
      && s'.Valid() && s' == In(s.store, s.g, s.eg, s.calls, s.now, t)
      && (t < s.now ==> InStep(env, s', Sgetc) == InResult(s', None, Some(TimedOut)))
  {
  }

  ghost function NewInput(now: nat, expiry: int): InLedger {
    InLedger(In(Zeros(BUFFER_SIZE), PUTBACK_MAX, PUTBACK_MAX, 0, now, expiry), [], [])
  }
}
