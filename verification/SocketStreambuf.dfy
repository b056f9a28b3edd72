/**
 * asio::basic_socket_streambuf as an object: the retry loops of overflow and underflow over its
 * two arrays and a socket, proved to compute what the model's recursive definitions say.
 */
module SocketStreambufs {
  import opened Bytes
  import M = SocketModel

  /** The socket and the clock.  Their answers are arbitrary but fixed streams of replies. */
  class Socket {
    const sendReplies: nat -> M.SendReply
    const recvReplies: nat -> M.RecvReply
    var sends: nat
    var recvs: nat
    var now: nat
    var wire: seq<Byte>

    constructor (sendReplies: nat -> M.SendReply, recvReplies: nat -> M.RecvReply, now: nat)
      ensures this.sendReplies == sendReplies && this.recvReplies == recvReplies
      ensures sends == 0 && recvs == 0 && wire == [] && this.now == now
    {
      this.sendReplies, this.recvReplies, this.now := sendReplies, recvReplies, now;
      sends, recvs, wire := 0, 0, [];
    }

    /** send: how many bytes were taken; when none, whether the socket would have blocked. */
    method Send(out: seq<Byte>) returns (bytes: int, wouldBlock: bool)
      modifies this`sends, this`now, this`wire
      ensures sends == old(sends) + 1
      ensures match sendReplies(old(sends))
        case Took(n, elapsed) =>
          bytes == Min(n, |out|) && !wouldBlock && now == old(now) + elapsed && wire == old(wire) + out[..bytes]
        case SendBlocked(_, _) => bytes == -1 && wouldBlock && now == old(now) && wire == old(wire)
        case SendFailed(elapsed) => bytes == -1 && !wouldBlock && now == old(now) + elapsed && wire == old(wire)
    {
      match sendReplies(sends) {
        case Took(n, elapsed) =>
          bytes, wouldBlock := Min(n, |out|), false;
          wire := wire + out[..bytes];
          now := now + elapsed;
        case SendBlocked(_, _) => bytes, wouldBlock := -1, true;
        case SendFailed(elapsed) =>
          bytes, wouldBlock := -1, false;
          now := now + elapsed;
      }
      sends := sends + 1;
    }

    /** poll_write after the last send would have blocked. */
    method PollWrite() returns (result: int)
      requires sends > 0 && sendReplies(sends - 1).SendBlocked?
      modifies this`now
      ensures now == old(now) + 1 + sendReplies(sends - 1).elapsed
      ensures result < 0 <==> !sendReplies(sends - 1).pollSucceeds
    {
      now := now + 1 + sendReplies(sends - 1).elapsed;
      result := if sendReplies(sends - 1).pollSucceeds then 1 else -1;
    }

    /** recv into the section of the array that starts at from. */
    method Recv(a: array<Byte>, from: int) returns (bytes: int, wouldBlock: bool)
      requires 0 <= from <= a.Length
      modifies this`recvs, this`now, a
      ensures recvs == old(recvs) + 1
      ensures match recvReplies(old(recvs))
        case Gave(bs, elapsed) =>
          && bytes == Min(|bs|, a.Length - from) && !wouldBlock && now == old(now) + elapsed
          && a[..] == Patched(old(a[..]), from, bs[..bytes])
        case RecvBlocked(_, _) => bytes == -1 && wouldBlock && now == old(now) && a[..] == old(a[..])
        case RecvFailed(elapsed) => bytes == -1 && !wouldBlock && now == old(now) + elapsed && a[..] == old(a[..])
    {
      match recvReplies(recvs) {
        case Gave(bs, elapsed) =>
          bytes, wouldBlock := Min(|bs|, a.Length - from), false;
          forall i | 0 <= i < bytes {
            a[from + i] := bs[i];
          }
          now := now + elapsed;
        case RecvBlocked(_, _) => bytes, wouldBlock := -1, true;
        case RecvFailed(elapsed) =>
          bytes, wouldBlock := -1, false;
          now := now + elapsed;
      }
      recvs := recvs + 1;
    }

    method PollRead() returns (result: int)
      requires recvs > 0 && recvReplies(recvs - 1).RecvBlocked?
      modifies this`now
      ensures now == old(now) + 1 + recvReplies(recvs - 1).elapsed
      ensures result < 0 <==> !recvReplies(recvs - 1).pollSucceeds
    {
      now := now + 1 + recvReplies(recvs - 1).elapsed;
      result := if recvReplies(recvs - 1).pollSucceeds then 1 else -1;
    }
  }

  class SocketStreambuf {
    const socket: Socket
    var getBuffer: array<Byte>
    var putBuffer: array<Byte>
    var g: int
    var eg: int
    var p: int
    var ep: int
    var error: Option<M.Error>
    var expiry: int

    ghost predicate Valid()
      reads this
    {
      && getBuffer != putBuffer
      && getBuffer.Length == M.BUFFER_SIZE
      && putBuffer.Length in {0, M.BUFFER_SIZE}
      && 0 <= p <= ep == putBuffer.Length
      && 0 <= g <= eg <= M.BUFFER_SIZE && M.PUTBACK_MAX <= eg
    }

    ghost function OutState(): (s: M.Out)
      requires Valid()
      reads this, socket, putBuffer
      ensures s.Valid()
    {
      M.Out(putBuffer.Length != 0, putBuffer[..p], socket.wire, socket.sends, socket.now, expiry)
    }

    ghost function InState(): (s: M.In)
      requires Valid()
      reads this, socket, getBuffer
      ensures s.Valid()
    {
      M.In(getBuffer[..], g, eg, socket.recvs, socket.now, expiry)
    }

    constructor (socket: Socket, expiry: int)
      ensures Valid() && this.socket == socket && fresh(getBuffer) && fresh(putBuffer)
      ensures OutState() == M.Out(true, [], socket.wire, socket.sends, socket.now, expiry)
      ensures g == eg == M.PUTBACK_MAX && error == None
    {
      this.socket, this.expiry, error := socket, expiry, None;
      getBuffer, putBuffer := new Byte[512](_ => 0), new Byte[512](_ => 0);
      g, eg, p, ep := 8, 8, 0, 512;
    }

    /** What a failure comes down to: the error code, which a send that takes nothing leaves cleared. */
    function Reason(): M.Error
      reads this
    {
      if error.Some? then error.value else M.NothingTaken
    }

    /** One turn of the loop of overflow, before the deadline: something is sent, or the socket is
        waited for, or it fails. */
    method SendTurn(out: seq<Byte>) returns (taken: seq<Byte>, rest: seq<Byte>, failed: bool)
      requires out != [] && socket.now <= expiry
      modifies this`error, socket`sends, socket`now, socket`wire
      ensures out == taken + rest && socket.wire == old(socket.wire) + taken
      ensures failed ==> taken == []
      ensures failed ==>
        var d := M.Drain(socket.sendReplies, old(socket.sends), old(socket.now), expiry, out);
        d == M.Drained(0, socket.sends, socket.now, Some(Reason()))
      ensures !failed ==> (taken != [] && socket.now >= old(socket.now)) || socket.now > old(socket.now)
      ensures !failed ==>
        var d := M.Drain(socket.sendReplies, socket.sends, socket.now, expiry, rest);
        M.Drain(socket.sendReplies, old(socket.sends), old(socket.now), expiry, out) == d.(sent := |taken| + d.sent)
    {
      var bytes, wouldBlock := socket.Send(out);
      if bytes > 0 {
        return out[..bytes], out[bytes..], false;
      }
      taken, rest, failed := [], out, true;
      if !wouldBlock {
        error := if bytes == 0 then None else Some(M.SystemError);
        return;
      }
      var ready := socket.PollWrite();
      if ready < 0 {
        error := Some(M.SystemError);
        return;
      }
      failed := false;
    }

    /** The loop of overflow: send until nothing is left of all, or fail. */
    method SendAll(all: seq<Byte>) returns (ok: bool)
      modifies this`error, socket`sends, socket`now, socket`wire
      ensures var d := M.Drain(socket.sendReplies, old(socket.sends), old(socket.now), expiry, all);
        && d.sent <= |all|
        && socket.sends == d.calls && socket.now == d.now && socket.wire == old(socket.wire) + all[..d.sent]
        && d.error == if ok then None else Some(Reason())
    {
      var out := all;
      ghost var gone, i, t := [], socket.sends, socket.now;
      while out != []
        invariant all == gone + out
        invariant socket.wire == old(socket.wire) + gone
        invariant var d := M.Drain(socket.sendReplies, socket.sends, socket.now, expiry, out);
          M.Drain(socket.sendReplies, i, t, expiry, all) == d.(sent := |gone| + d.sent)
        decreases |out|, expiry - socket.now
      {
        FrontOf(gone, out);
        if expiry < socket.now {
          error := Some(M.TimedOut);
          return false;
        }
        var taken, rest, failed := SendTurn(out);
        if failed {
          return false;
        }
        Associates(gone, taken, rest);
        gone, out := gone + taken, rest;
      }
      FrontOf(gone, out);
      ok := true;
    }

    /** overflow(c), where no c stands for eof. */
    method Overflow(c: Option<Byte>) returns (ok: bool)
      requires Valid()
      modifies this`p, this`error, putBuffer, socket`sends, socket`now, socket`wire
      ensures Valid()
      ensures M.OutResult(OutState(), if ok then None else Some(Reason()))
           == M.Overflow(socket.sendReplies, old(OutState()), c)
    {
      var out: seq<Byte>;
      if putBuffer.Length == 0 {
        if c.None? {
          return true;
        }
        out := [c.value];
      } else {
        out := putBuffer[..p];
      }
      ok := SendAll(out);
      if !ok {
        return;
      }
      if putBuffer.Length != 0 {
        p := 0;
        if c.None? {
          return;
        }
        putBuffer[p] := c.value;
        p := p + 1;
      }
    }

    /** sputc: the put area if there is room in it, overflow otherwise. */
    method Sputc(c: Byte) returns (ok: bool)
      requires Valid()
      modifies this`p, this`error, putBuffer, socket`sends, socket`now, socket`wire
      ensures Valid()
      ensures M.OutResult(OutState(), if ok then None else Some(Reason()))
           == M.OutStep(socket.sendReplies, old(OutState()), M.Put(c))
    {
      if p < ep {
        putBuffer[p] := c;
        p := p + 1;
        ok := true;
      } else {
        ok := Overflow(Some(c));
      }
    }

    method Sync() returns (ok: bool)
      requires Valid()
      modifies this`p, this`error, putBuffer, socket`sends, socket`now, socket`wire
      ensures Valid()
      ensures M.OutResult(OutState(), if ok then None else Some(Reason()))
           == M.OutStep(socket.sendReplies, old(OutState()), M.Sync)
    {
      ok := Overflow(None);
    }

    /** setbuf(0, 0): honoured only while nothing is pending. */
    method SetUnbuffered() returns (honoured: bool)
      requires Valid()
      modifies this`putBuffer, this`p, this`ep, this`error, putBuffer, socket`sends, socket`now, socket`wire
      ensures Valid()
      ensures OutState() == M.OutStep(socket.sendReplies, old(OutState()), M.SetUnbuffered).s
      ensures honoured <==> old(OutState()).pending == []
    {
      if p == 0 {
        putBuffer := new Byte[0];
        p, ep := 0, 0;
        var _ := Sync();
        return true;
      }
      honoured := false;
    }

    /** underflow(). */
    method Underflow() returns (c: Option<Byte>)
      requires Valid()
      modifies this`g, this`eg, this`error, getBuffer, socket`recvs, socket`now
      ensures Valid()
      ensures var r := M.Underflow(socket.recvReplies, old(InState()));
        r.s == InState() && r.ret == c && (r.error.Some? ==> r.error == error)
    {
      if g != eg {
        return None;
      }
      ghost var s0 := InState();
      while true
        invariant g == s0.g && eg == s0.eg && getBuffer[..] == s0.store
        invariant M.Await(socket.recvReplies, s0.calls, s0.now, expiry)
               == M.Await(socket.recvReplies, socket.recvs, socket.now, expiry)
        decreases expiry - socket.now
      {
        if expiry < socket.now {
          error := Some(M.TimedOut);
          return None;
        }
        var bytes, wouldBlock := socket.Recv(getBuffer, 8);
        if bytes > 0 {
          g, eg := 8, 8 + bytes;
          return Some(getBuffer[g]);
        }
        if bytes == 0 {
          assert getBuffer[..] == s0.store;
          error := Some(M.EndOfFile);
          return None;
        }
        if !wouldBlock {
          error := Some(M.SystemError);
          return None;
        }
        var ready := socket.PollRead();
        if ready < 0 {
          error := Some(M.SystemError);
          return None;
        }
      }
    }

    method Sgetc() returns (c: Option<Byte>)
      requires Valid()
      modifies this`g, this`eg, this`error, getBuffer, socket`recvs, socket`now
      ensures Valid()
      ensures var r := M.InStep(socket.recvReplies, old(InState()), M.Sgetc); r.s == InState() && r.ret == c
    {
      if g < eg {
        c := Some(getBuffer[g]);
      } else {
        c := Underflow();
      }
    }

    method Sbumpc() returns (c: Option<Byte>)
      requires Valid()
      modifies this`g, this`eg, this`error, getBuffer, socket`recvs, socket`now
      ensures Valid()
      ensures var r := M.InStep(socket.recvReplies, old(InState()), M.Sbumpc); r.s == InState() && r.ret == c
    {
      if g < eg {
        c := Some(getBuffer[g]);
        g := g + 1;
      } else {
        c := Underflow();
        if c.Some? {
          g := g + 1;
        }
      }
    }

    method Sungetc() returns (c: Option<Byte>)
      requires Valid()
      modifies this`g
      ensures Valid()
      ensures var r := M.InStep(socket.recvReplies, old(InState()), M.Sungetc); r.s == InState() && r.ret == c
    {
      if 0 < g {
        g := g - 1;
        c := Some(getBuffer[g]);
      } else {
        c := None;
      }
    }
  }
}
