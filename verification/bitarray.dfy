/**
 The bit array behind the metadata filter (bitarray.c).
 */
module BitArrays {
  import opened Bytes

  // ---------------------------------------------------------------- single words

  /** Bit `k` of a word: `x & (1 << k)` is not zero. */
  predicate Bit(x: nat, k: nat) {
    if k == 0 then x % 2 == 1 else Bit(x / 2, k - 1)
  }

  /** `x | (1 << k)` */
  function OrBit(x: nat, k: nat): nat {
    if k == 0 then x / 2 * 2 + 1 else x % 2 + 2 * OrBit(x / 2, k - 1)
  }

  /** `x & ~(1 << k)` */
  function AndNotBit(x: nat, k: nat): nat {
    if k == 0 then x / 2 * 2 else x % 2 + 2 * AndNotBit(x / 2, k - 1)
  }

  lemma {:induction false} BitOpsInRange(x: nat, k: nat, n: nat)
    requires x < Pow2(n) && k < n
    ensures OrBit(x, k) < Pow2(n) && AndNotBit(x, k) < Pow2(n)
  {
    var half := Pow2(n - 1);
    assert Pow2(n) == 2 * half;
    hide Pow2;
    HalfBelow(x, half);
    if k > 0 {
      BitOpsInRange(x / 2, k - 1, n - 1);
    }
  }

  lemma HalfBelow(x: nat, half: nat)
    requires x < 2 * half
    ensures x / 2 < half
  {
  }

  lemma {:induction false} BitAfter(x: nat, k: nat, j: nat)
    ensures Bit(OrBit(x, k), j) <==> j == k || Bit(x, j)
    ensures Bit(AndNotBit(x, k), j) <==> j != k && Bit(x, j)
  {
    Digits(0, x / 2);
    Digits(1, x / 2);
    if k > 0 {
      Digits(x % 2, OrBit(x / 2, k - 1));
      Digits(x % 2, AndNotBit(x / 2, k - 1));
      if j > 0 {
        BitAfter(x / 2, k - 1, j - 1);
      }
    }
  }

  lemma Digits(low: nat, high: nat)
    requires low < 2
    ensures (low + 2 * high) / 2 == high && (low + 2 * high) % 2 == low
  {
  }

  lemma {:induction false} BitsOfConstants(k: nat)
    ensures !Bit(0, k)
    ensures k < 8 ==> Bit(255, k)
  {
    if k > 0 {
      BitsOfConstants(k - 1);
      OnesBit(8, k);
    } else {
      OnesBit(8, 0);
    }
  }

  lemma {:induction false} OnesBit(n: nat, k: nat)
    ensures k < n ==> Bit(Pow2(n) - 1, k)
    ensures n == 8 ==> Pow2(n) - 1 == 255
  {
    if 0 < k < n {
      OnesBit(n - 1, k - 1);
      assert (Pow2(n) - 1) / 2 == Pow2(n - 1) - 1;
    }
    if n == 8 {
      assert Pow2(4) == 16;
    }
  }

  // ---------------------------------------------------------------- highest set bit

  function Log2(val: nat): (r: nat)
    ensures val > 0 ==> Pow2(r) <= val < Pow2(r + 1)
  {
    if val < 2 then 0 else Log2(val / 2) + 1
  }

  /** highest_set_bit64: the index of the top set bit. */
  method HighestSetBit(val: nat) returns (counter: nat)
    ensures counter == Log2(val)
  {
    counter := 0;
    var v: nat := val / 2;
    while v != 0
      invariant v != 0 ==> Log2(val) == counter + Log2(v) + 1
      invariant v == 0 ==> Log2(val) == counter
      decreases v
    {
      counter := counter + 1;
      v := v / 2;
    }
  }

  // ---------------------------------------------------------------- bit arrays

  /** Bit `bit` of an array of `len` bits stored in `bytes`; bits out of range read as false. */
  predicate BitOf(bytes: seq<Byte>, len: nat, bit: nat)
    requires |bytes| == (len + 7) / 8
  {
    bit < len && Bit(bytes[bit / 8], bit % 8)
  }

  /** The copy of n / 8 bytes fits the array if and only if n is less than a byte above the power of
      two it is rounded down to. */
  lemma {:induction false} CopyFitsIff(n: nat)
    ensures n / 8 <= (Pow2(Log2(n)) + 7) / 8 <==> n < Pow2(Log2(n)) + 8
  {
    if Log2(n) >= 3 {
      Pow2Add(3, Log2(n) - 3);
      assert Pow2(3) == 8;
    } else {
      Pow2Monotone(Log2(n) + 1, 3);
      assert Pow2(3) == 8;
    }
  }

  /** 24 bytes make an array of 16 bits, two bytes, into which three are copied. */
  lemma CopyOverruns()
    ensures Pow2(Log2(24)) == 16 && (Pow2(Log2(24)) + 7) / 8 == 2 && 24 / 8 == 3
  {
    assert Log2(24) == Log2(12) + 1 && Log2(12) == Log2(6) + 1 && Log2(6) == Log2(3) + 1 && Log2(3) == 1;
    assert Pow2(4) == 16;
  }

  class BitArray {
    var data: array<Byte>
    var len: nat

    ghost predicate Valid()
      reads this
    {
      data.Length == (len + 7) / 8 && 0 < len
    }

    ghost predicate Get(bit: nat)
      reads this, data
      requires Valid()
    {
      BitOf(data[..], len, bit)
    }

    /** bitarray_init: `n` rounded down to a power of two, all bits of whole bytes clear. */
    constructor (n: nat)
      ensures Valid() && fresh(data) && len == Pow2(Log2(n))
      ensures forall bit: nat :: bit < len / 8 * 8 ==> !Get(bit)
    {
      var k := HighestSetBit(n);
      len := Pow2(k);
      data := new Byte[(Pow2(k) + 7) / 8];
      new;
      UnsetAll();
    }

    /** bitarray_init_data: `n` is taken for a length in bits, so n / 8 bytes are copied. Bytes that
        do not fit, which C writes behind the array, are dropped. */
    constructor FromData(src: seq<Byte>, n: nat)
      requires n <= |src|
      ensures Valid() && fresh(data) && len == Pow2(Log2(n))
      ensures var k := Min(n / 8, data.Length); data[..k] == src[..k]
    {
      var k := HighestSetBit(n);
      len := Pow2(k);
      data := new Byte[(Pow2(k) + 7) / 8];
      new;
      forall i | 0 <= i < Min(n / 8, data.Length) {
        data[i] := src[i];
      }
    }

    method UnsetAll()
      requires Valid()
      modifies data
      ensures forall bit: nat :: bit < len / 8 * 8 ==> !Get(bit)
    {
      forall i | 0 <= i < len / 8 {
        data[i] := 0;
      }
      forall bit: nat | bit < len / 8 * 8 ensures !Get(bit) {
        assert data[..][bit / 8] == 0;
        BitsOfConstants(bit % 8);
      }
    }

    method SetAll()
      requires Valid()
      modifies data
      ensures forall bit: nat :: bit < len / 8 * 8 ==> Get(bit)
    {
      forall i | 0 <= i < len / 8 {
        data[i] := 255;
      }
      forall bit: nat | bit < len / 8 * 8 ensures Get(bit) {
        assert data[..][bit / 8] == 255;
        BitsOfConstants(bit % 8);
      }
    }

    method GetBit(bit: nat) returns (r: bool)
      requires Valid()
      ensures r == Get(bit)
    {
      if bit < len {
        r := Bit(data[bit / 8], bit % 8);
      } else {
        r := false;
      }
    }

    method SetBit(bit: nat)
      requires Valid()
      modifies data
      ensures forall b: nat :: Get(b) <==> (b == bit && bit < len) || old(Get(b))
    {
      if bit < len {
        ByteOps(data[bit / 8], bit % 8);
        data[bit / 8] := OrBit(data[bit / 8], bit % 8);
        forall b: nat | b < len ensures Get(b) <==> b == bit || old(Get(b)) {
          BitAfter(old(data[bit / 8]), bit % 8, b % 8);
        }
      }
    }

    method UnsetBit(bit: nat)
      requires Valid()
      modifies data
      ensures forall b: nat :: Get(b) <==> b != bit && old(Get(b))
    {
      if bit < len {
        ByteOps(data[bit / 8], bit % 8);
        data[bit / 8] := AndNotBit(data[bit / 8], bit % 8);
        forall b: nat | b < len ensures Get(b) <==> b != bit && old(Get(b)) {
          BitAfter(old(data[bit / 8]), bit % 8, b % 8);
        }
      }
    }
  }

  lemma {:induction false} ByteOps(x: Byte, k: nat)
    requires k < 8
    ensures OrBit(x, k) < 256 && AndNotBit(x, k) < 256
  {
    assert Pow2(8) == 256 by {
      assert Pow2(4) == 16;
    }
    BitOpsInRange(x, k, 8);
  }
}
