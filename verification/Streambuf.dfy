/**
 * asio::basic_streambuf as an object that updates its array and positions in place.  Each method
 * is proved to have exactly the effect its model function describes; sizes are 64-bit, so the
 * verifier also checks that none of the size arithmetic wraps.
 */
module Streambufs {
  import opened Bytes
  import M = StreambufModel

  class Streambuf {
    const maxSize: USize
    var buffer: array<Byte>
    var g: int
    var eg: int
    var p: int
    var ep: int

    ghost function State(): M.State
      reads this, buffer
    {
      M.State(maxSize as int, buffer[..], g, eg, p, ep)
    }

    ghost predicate Valid()
      reads this, buffer
    {
      State().Valid()
    }

    constructor (maximumSize: USize)
      ensures Valid() && fresh(buffer)
      ensures State() == M.Initial(maximumSize as int)
    {
      maxSize := maximumSize;
      var pend: USize := if maximumSize < 128 then maximumSize else 128;
      buffer := new Byte[AtLeastOne(pend)](_ => 0);
      g, eg, p, ep := 0, 0, 0, pend as int;
      new;
      assert buffer[..] == Zeros(buffer.Length);
    }

    /** size() */
    function Size(): (n: int)
      requires Valid()
      reads this, buffer
      ensures 0 <= n <= maxSize as int && n == |State().View()|
    {
      p - g
    }

    /** data(): the readable characters. */
    method Data() returns (v: seq<Byte>)
      requires Valid()
      ensures v == State().View()
    {
      v := buffer[g..p];
    }

    /** std::memmove of the readable characters to the front of the array, if they are not there. */
    method MoveToFront()
      requires Valid()
      modifies buffer
      ensures buffer[..] == M.Shifted(old(buffer[..]), g, p)
    {
      if g > 0 {
        forall i | 0 <= i < p - g {
          buffer[i] := buffer[g + i];
        }
      }
    }

    /** std::vector::resize to a size not below the present one. */
    method Resize(size: nat)
      requires buffer.Length <= size
      modifies this`buffer
      ensures fresh(buffer)
      ensures buffer[..] == M.Resized(old(buffer[..]), size)
    {
      var old_buffer := buffer;
      var a := new Byte[size](_ => 0);
      forall i | 0 <= i < old_buffer.Length {
        a[i] := old_buffer[i];
      }
      buffer := a;
    }

    /** Where the put area has to end for n more characters behind pnext, unless the maximum forbids
        it.  All the size arithmetic of reserve is here, and none of it wraps. */
    method EndFor(pnext: USize, pend: USize, n: USize) returns (end: Option<USize>)
      requires pnext <= pend <= maxSize
      ensures end.Some? <==> n <= pend - pnext || pnext as int + n as int <= maxSize as int
      ensures end.Some? ==> end.value as int == Max(pend as int, pnext as int + n as int)
    {
      if n > pend - pnext {
        if n <= maxSize && pnext <= maxSize - n {
          return Some(pnext + n);
        }
        return None;
      }
      end := Some(pend);
    }

    method Reserve(n: USize) returns (threw: bool)
      requires Valid()
      modifies this, buffer
      ensures buffer == old(buffer) || fresh(buffer)
      ensures M.Result(State(), threw, None) == M.Reserve(old(State()), n as int)
      ensures Valid()
    {
      M.ReserveIsExact(State(), n as int);
      if n as int <= ep - p {
        return false;
      }
      MoveToFront();
      var size := p - g;
      var end := EndFor(size as USize, ep as USize, n);
      if end.None? {
        return true;
      }
      if end.value as int > ep {
        Resize(Max(end.value as int, 1));
      } else {
        M.ResizedToSameLength(buffer[..]);
      }
      g, eg := 0, size;
      p, ep := size, end.value as int;
      threw := false;
    }

    /** prepare(n): on success the caller may fill [p, p + n). */
    method Prepare(n: USize) returns (threw: bool)
      requires Valid()
      modifies this, buffer
      ensures Valid() && (buffer == old(buffer) || fresh(buffer))
      ensures M.Reserve(old(State()), n as int) == M.Result(State(), threw, None)
    {
      threw := Reserve(n);
    }

    /** The caller's use of the region prepare returned. */
    method Write(bs: seq<Byte>)
      requires Valid() && |bs| <= ep - p
      modifies buffer
      ensures Valid() && State() == M.Write(old(State()), bs).s
    {
      forall i | 0 <= i < |bs| {
        buffer[p + i] := bs[i];
      }
      assert buffer[..] == Patched(old(buffer[..]), p, bs);
    }

    method Commit(n: USize)
      requires Valid()
      modifies this
      ensures State() == M.Commit(old(State()), n as int).s
    {
      var room := (ep - p) as USize;
      var m := if n < room then n else room;
      p := p + ToInt(m as int);
      eg := p;
    }

    /** consume(n) on an array whose first byte is at the address origin. */
    method Consume(n: USize, origin: USize)
      requires Valid() && origin as int + buffer.Length <= SIZE_MAX
      modifies this
      ensures State() == M.Consume(old(State()), n as int, origin as int).s
    {
      if eg < p {
        eg := p;
      }
      var m := n;
      if (origin as int + g + n as int) % (SIZE_MAX + 1) > origin as int + p {
        m := (p - g) as USize;
      }
      g := g + ToInt(m as int);
    }

    method Underflow() returns (c: Option<Byte>)
      requires Valid()
      modifies this
      ensures Valid() && M.Underflow(old(State())) == M.Result(State(), false, c)
    {
      if g < p {
        eg := p;
        c := Some(buffer[g]);
      } else {
        c := None;
      }
    }

    /** Store c at the put position and advance it. */
    method Append(c: Byte)
      requires Valid() && p < ep
      modifies this`p, buffer
      ensures State() == M.Put(old(State()), c).s
      ensures Valid()
    {
      buffer[p] := c;
      p := p + 1;
    }

    /** How much room overflow asks for; the arithmetic on the sizes does not wrap. */
    method GrowthStep() returns (n: USize)
      requires Valid()
      ensures n as int == if p - g == maxSize as int then 128 else Min(128, maxSize as int - (p - g))
    {
      var bufferSize := (p - g) as USize;
      n := if bufferSize < maxSize && maxSize - bufferSize < 128 then maxSize - bufferSize else 128;
    }

    method Overflow(c: Byte) returns (threw: bool)
      requires Valid()
      modifies this, buffer
      ensures buffer == old(buffer) || fresh(buffer)
      ensures M.Result(State(), threw, if threw then None else Some(c)) == M.Overflow(old(State()), c)
      ensures Valid()
    {
      M.OverflowByParts(State(), c);
      if p == ep {
        var n := GrowthStep();
        threw := Reserve(n);
        if threw {
          return;
        }
      }
      Append(c);
      threw := false;
    }

    /** sputc: the put area if there is room in it, overflow otherwise. */
    method Sputc(c: Byte) returns (threw: bool)
      requires Valid()
      modifies this, buffer
      ensures Valid() && (buffer == old(buffer) || fresh(buffer))
      ensures M.Overflow(old(State()), c) == M.Result(State(), threw, if threw then None else Some(c))
    {
      if p < ep {
        Append(c);
        threw := false;
      } else {
        threw := Overflow(c);
      }
    }

    method Sgetc() returns (c: Option<Byte>)
      requires Valid()
      modifies this
      ensures Valid() && M.Sgetc(old(State())) == M.Result(State(), false, c)
    {
      if g < eg {
        c := Some(buffer[g]);
      } else {
        c := Underflow();
      }
    }

    /** sbumpc: the default uflow is underflow followed by one step of the get position. */
    method Sbumpc() returns (c: Option<Byte>)
      requires Valid()
      modifies this
      ensures Valid() && M.Sbumpc(old(State())) == M.Result(State(), false, c)
    {
      if g < eg {
        c := Some(buffer[g]);
        g := g + 1;
      } else {
        c := Underflow();
        if c.Some? {
          g := g + 1;
        }
      }
    }

    method Sungetc() returns (c: Option<Byte>)
      requires Valid()
      modifies this
      ensures Valid() && M.Sungetc(old(State())) == M.Result(State(), false, c)
    {
      if 0 < g {
        g := g - 1;
        c := Some(buffer[g]);
      } else {
        c := None;
      }
    }

    /** read_size_helper, for whatever capacity() reports. */
    method ReadSizeHelper(capacity: USize, m: USize) returns (r: USize)
      requires Valid() && buffer.Length <= capacity as int
      ensures r <= m && Size() + r as int <= maxSize as int
      ensures r == 0 <==> m == 0 || Size() == maxSize as int
      ensures r as int == M.ReadSize(State(), capacity as int, m as int)
    {
      var size := (p - g) as USize;
      var spare, room := capacity - size, maxSize - size;
      r := if spare > 512 then spare else 512;
      var limit := if m < room then m else room;
      r := if r < limit then r else limit;
    }
  }

  function AtLeastOne(n: USize): USize { if n < 1 then 1 else n }
}
