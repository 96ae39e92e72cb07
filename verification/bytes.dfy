/**
 Bytes, powers of two and fixed-width integers in little- and big-endian order.
 Every on-disk and on-wire format of the system is built from these.
 */
module Bytes {

  type Byte = x: int | 0 <= x < 256

  datatype Option<+T> = None | Some(value: T)

  const TWO32: nat := 0x1_0000_0000
  const TWO64: nat := 0x1_0000_0000_0000_0000

  /** Bytes in a disk sector. */
  const SECTOR_SIZE: nat := 512

  function Min(a: int, b: int): int {
    if a < b then a else b
  }

  function Max(a: int, b: int): int {
    if a < b then b else a
  }

  function Pow2(n: nat): (r: nat)
    ensures 0 < r
  {
    if n == 0 then 1 else 2 * Pow2(n - 1)
  }

  lemma {:induction false} Pow2Add(m: nat, n: nat)
    ensures Pow2(m + n) == Pow2(m) * Pow2(n)
  {
    if m == 0 {
    } else {
      Pow2Add(m - 1, n);
      assert Pow2(m + n) == 2 * Pow2(m - 1 + n);
    }
  }

  lemma {:induction false} Pow2Monotone(m: nat, n: nat)
    requires m <= n
    ensures Pow2(m) <= Pow2(n)
    decreases n - m
  {
    if m < n {
      Pow2Monotone(m + 1, n);
    }
  }

  /** The number of values that fit in `k` bytes. */
  function Radix(k: nat): (r: nat)
    ensures 0 < r
  {
    if k == 0 then 1 else 256 * Radix(k - 1)
  }

  lemma {:induction false} RadixIsPow2(k: nat)
    ensures Radix(k) == Pow2(8 * k)
  {
    if k == 0 {
    } else {
      RadixIsPow2(k - 1);
      Pow2Add(8, 8 * (k - 1));
      assert Pow2(8) == 256 by {
        assert Pow2(4) == 16;
      }
    }
  }

  /** Value of a little-endian byte string. */
  function Le(s: seq<Byte>): (r: nat)
  {
    if s == [] then 0 else s[0] + 256 * Le(s[1..])
  }

  /** The `k` low-order bytes of `v`, little-endian. */
  function ToLe(v: nat, k: nat): (r: seq<Byte>)
    ensures |r| == k
  {
    if k == 0 then [] else [v % 256] + ToLe(v / 256, k - 1)
  }

  lemma {:induction false} LeToLe(v: nat, k: nat)
    requires v < Radix(k)
    ensures Le(ToLe(v, k)) == v
  {
    if k == 0 {
    } else {
      LeToLe(v / 256, k - 1);
      assert ToLe(v, k)[1..] == ToLe(v / 256, k - 1);
    }
  }

  lemma {:induction false} LeBound(s: seq<Byte>)
    ensures Le(s) < Radix(|s|)
  {
    if s == [] {
    } else {
      LeBound(s[1..]);
    }
  }

  lemma {:induction false} ToLeLe(s: seq<Byte>)
    ensures ToLe(Le(s), |s|) == s
  {
    if s == [] {
    } else {
      ToLeLe(s[1..]);
      assert Le(s) % 256 == s[0] && Le(s) / 256 == Le(s[1..]);
    }
  }

  /** Value of a big-endian byte string. */
  function Be(s: seq<Byte>): (r: nat)
  {
    if s == [] then 0 else 256 * Be(s[..|s| - 1]) + s[|s| - 1]
  }

  /** The `k` low-order bytes of `v`, big-endian. */
  function ToBe(v: nat, k: nat): (r: seq<Byte>)
    ensures |r| == k
  {
    if k == 0 then [] else ToBe(v / 256, k - 1) + [v % 256]
  }

  lemma {:induction false} BeToBe(v: nat, k: nat)
    requires v < Radix(k)
    ensures Be(ToBe(v, k)) == v
  {
    if k > 0 {
      BeToBe(v / 256, k - 1);
      assert ToBe(v, k)[..k - 1] == ToBe(v / 256, k - 1);
    }
  }

  function Zeros(n: nat): (r: seq<Byte>)
    ensures |r| == n
    ensures forall i :: 0 <= i < n ==> r[i] == 0
  {
    seq(n, i => 0)
  }

  /** `b` holds `x` at position `p`. */
  predicate At(b: seq<Byte>, p: nat, x: seq<Byte>) {
    p + |x| <= |b| && b[p..p + |x|] == x
  }

  lemma {:induction false} AtParts(b: seq<Byte>, p: nat, x: seq<Byte>, y: seq<Byte>)
    requires At(b, p, x + y)
    ensures At(b, p, x) && At(b, p + |x|, y)
  {
    assert b[p..p + |x|] == (x + y)[..|x|];
    assert b[p + |x|..p + |x| + |y|] == (x + y)[|x|..];
  }

  lemma {:induction false} SliceOfSlice(s: seq<Byte>, at: nat, size: nat, k: nat, n: nat)
    requires at + size <= |s| && k + n <= size
    ensures s[at..at + size][k..k + n] == s[at + k..at + k + n]
  {
    var part, lo, hi := s[at..at + size], at + k, at + k + n;
    assert part[..k + n] == s[at..hi];
    assert s[at..hi][k..] == s[lo..hi];
  }

  /** What stands in something that stands in a buffer. */
  lemma {:induction false} AtInside(b: seq<Byte>, p: nat, x: seq<Byte>, q: nat, y: seq<Byte>)
    requires At(b, p, x) && At(x, q, y)
    ensures At(b, p + q, y)
  {
    SliceOfSlice(b, p, |x|, q, |y|);
  }

  /** What stands in a part of a buffer, seen from that part. */
  lemma {:induction false} AtSlice(b: seq<Byte>, p: nat, size: nat, q: nat, x: seq<Byte>)
    requires p + size <= |b| && q + |x| <= size && At(b, p + q, x)
    ensures At(b[p..p + size], q, x)
  {
    SliceOfSlice(b, p, size, q, |x|);
  }
}
