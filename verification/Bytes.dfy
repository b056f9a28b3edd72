/** Bytes, machine-integer bounds, the little-endian word encoding and what else the models share. */
module Bytes {
  newtype Byte = x: int | 0 <= x < 256

  const SIZE_MAX: int := 0xFFFF_FFFF_FFFF_FFFF
  const INT_MAX: int := 0x7FFF_FFFF

  /** A 64-bit size_t: the verifier checks that no arithmetic on it wraps. */
  newtype USize = x: int | 0 <= x <= SIZE_MAX

  datatype Option<+T> = None | Some(value: T)

  function Min(a: int, b: int): int { if a <= b then a else b }

  function Max(a: int, b: int): int { if a >= b then a else b }

  lemma Associates<T>(a: seq<T>, b: seq<T>, c: seq<T>)
    ensures a + (b + c) == (a + b) + c
  {
  }

  lemma FrontOf<T>(a: seq<T>, b: seq<T>)
    ensures (a + b)[..|a|] == a && (a + b)[|a|..] == b
  {
  }

  function Zeros(n: nat): (z: seq<Byte>)
    ensures |z| == n
  {
    seq(n, _ => 0)
  }

  /** The bytes of store, with others written over them from a position on. */
  function Patched(store: seq<Byte>, at: nat, bs: seq<Byte>): (r: seq<Byte>)
    requires at + |bs| <= |store|
    ensures |r| == |store|
  {
    seq(|store|, i requires 0 <= i < |store| => if at <= i < at + |bs| then bs[i - at] else store[i])
  }

  /** What converting an unsigned value to a 32-bit int yields on a two's complement machine. */
  function ToInt(n: nat): int {
    var w := n % 0x1_0000_0000;
    if w <= INT_MAX then w else w - 0x1_0000_0000
  }

  /** The conversion keeps the value exactly when the value fits. */
  lemma ToIntIsExact(n: nat)
    ensures ToInt(n) == n <==> n <= INT_MAX
  {
    if n < 0x1_0000_0000 {
      assert n % 0x1_0000_0000 == n;
    }
  }

  /** The k bytes of store before position g are the last k of removed. */
  ghost predicate TakesBack(removed: seq<Byte>, store: seq<Byte>, g: int, k: nat) {
    && k <= g <= |store|
    && k <= |removed|
    && forall j | g - k <= j < g :: store[j] == removed[|removed| - g + j]
  }

  function Pow256(width: nat): (r: nat)
    ensures r > 0
  {
    if width == 0 then 1 else 256 * Pow256(width - 1)
  }

  /** The object representation of an unsigned integer as wide as the slot it is copied to, least
      significant byte first. */
  function Encode(n: nat, slot: seq<Byte>): (w: seq<Byte>)
    ensures |w| == |slot|
  {
    if slot == [] then [] else [(n % 256) as Byte] + Encode(n / 256, slot[1..])
  }

  function Decode(w: seq<Byte>): (n: nat)
  {
    if w == [] then 0 else (w[0] as int) + 256 * Decode(w[1..])
  }

  /** Writing a value and reading it back gives the value modulo the width. */
  lemma {:induction false} DecodeEncode(n: nat, slot: seq<Byte>)
    ensures Decode(Encode(n, slot)) == n % Pow256(|slot|)
  {
    if slot != [] {
      var rest := Pow256(|slot| - 1);
      DecodeEncode(n / 256, slot[1..]);
      assert Encode(n, slot)[1..] == Encode(n / 256, slot[1..]);
      ModByParts(n, rest);
    }
  }

  lemma ModByParts(n: nat, m: nat)
    requires m > 0
    ensures n % (256 * m) == n % 256 + 256 * ((n / 256) % m)
  {
    var h, l := n / 256, n % 256;
    var q, r := h / m, h % m;
    assert n == 256 * (q * m + r) + l == (256 * m) * q + (256 * r + l);
    assert r <= m - 1;
    assert 0 <= 256 * r + l < 256 * m;
    RemainderIsUnique(n, 256 * m, q, 256 * r + l);
  }

  lemma RemainderIsUnique(n: int, d: int, q: int, r: int)
    requires d > 0 && 0 <= r < d && n == d * q + r
    ensures n % d == r && n / d == q
  {
    var q' := n / d;
    assert n == d * q' + n % d;
    if q > q' {
      MulAtLeast(d, q - q');
    } else if q < q' {
      MulAtLeast(d, q' - q);
    }
  }

  lemma MulAtLeast(d: int, k: int)
    requires d > 0 && k >= 1
    ensures d * k >= d
  {
    if k > 1 {
      MulAtLeast(d, k - 1);
      assert d * k == d * (k - 1) + d;
    }
  }
}
