/**
 NTFS data runs (ntfs.c, util.c): a header byte whose nibbles give the width of a length and of
 a signed distance from the previous run's first cluster, both little-endian; a zero header ends
 the list. Negative distances go through sign_extend64, which is called with the index of the
 top set bit instead of the width.
 */
module NtfsRuns {
  import opened Bytes
  import opened BitArrays

  /** Undefined: C would read outside its buffers or shift by more than 31. */
  datatype Parsed = End | Run(length: nat, lcn: int, next: nat) | Undefined

  /** util.c sign_extend64 for up to 31 bits: keep `bits` bits, flip and subtract the top one. */
  function SignExtend(val: nat, bits: nat): int
    requires bits > 0
  {
    var v, m := val % Pow2(bits), Pow2(bits - 1);
    (if v >= m then v - m else v + m) - m
  }

  /** The distance read from its bytes. */
  function Distance(raw: seq<Byte>): int
    requires raw != []
  {
    if raw[|raw| - 1] >= 0x80 && Log2(Le(raw)) > 0 then SignExtend(Le(raw), Log2(Le(raw))) else Le(raw)
  }

  function Upper(header: Byte): nat { header / 16 }
  function Lower(header: Byte): nat { header % 16 }

  lemma Nibbles(k: nat, m: nat)
    requires k < 16 && m < 16
    ensures 16 * k + m < 256 && Upper(16 * k + m) == k && Lower(16 * k + m) == m
  {
  }

  function ParseRun(data: seq<Byte>, at: nat): Parsed {
    if at >= |data| then Undefined
    else if data[at] == 0 then End
    else
      var lcnBytes, lenBytes := Upper(data[at]), Lower(data[at]);
      var mid := at + 1 + lenBytes;
      var next := mid + lcnBytes;
      if next > |data| || lenBytes > 8 || lcnBytes == 0 || lcnBytes > 4 then Undefined
      else Run(Le(data[at + 1..mid]), Distance(data[mid..next]), next)
  }

  lemma {:induction false} TopByte(s: seq<Byte>)
    requires s != []
    ensures s[|s| - 1] >= 0x80 <==> 2 * Le(s) >= Radix(|s|)
  {
    if |s| == 1 {
      assert Le(s[1..]) == 0 && Radix(1) == 256 * Radix(0);
    } else {
      TopByte(s[1..]);
      EvenRadix(|s| - 1);
      HalfStep(s[0], Le(s[1..]), Radix(|s| - 1));
    }
  }

  lemma HalfStep(b: Byte, v: nat, r: nat)
    requires r % 256 == 0
    ensures 2 * (b + 256 * v) >= 256 * r <==> 2 * v >= r
  {
  }

  lemma {:induction false} EvenRadix(k: nat)
    requires k > 0
    ensures Radix(k) % 256 == 0
  {
    assert Radix(k) == 256 * Radix(k - 1);
  }

  lemma {:induction false} Log2Is(v: nat, r: nat)
    requires Pow2(r) <= v < Pow2(r + 1)
    ensures Log2(v) == r
  {
    if Log2(v) < r {
      Pow2Monotone(Log2(v) + 1, r);
      assert false;
    }
    if Log2(v) > r {
      Pow2Monotone(r + 1, Log2(v));
      assert false;
    }
  }

  /** ntfs_parse_data_run */
  method ParseDataRun(data: seq<Byte>, at: nat) returns (p: Parsed)
    ensures p == ParseRun(data, at)
  {
    if at >= |data| {
      return Undefined;
    }
    var header := data[at];
    if header == 0 {
      return End;
    }
    var lcnBytes, lenBytes := Upper(header), Lower(header);
    var mid := at + 1 + lenBytes;
    var next := mid + lcnBytes;
    if next > |data| || lenBytes > 8 || lcnBytes == 0 || lcnBytes > 4 {
      return Undefined;
    }
    var length := Le(data[at + 1..mid]);
    var raw := data[mid..next];
    var lcn: int := Le(raw);
    if raw[lcnBytes - 1] >= 0x80 {
      var bits := HighestSetBit(Le(raw));
      if bits > 0 {
        lcn := SignExtend(Le(raw), bits);
      }
    }
    return Run(length, lcn, next);
  }

  // ------------------------------------------------------------------ encoding

  /** A run to encode: widths, length in clusters, distance from the previous run. */
  datatype RunSpec = RunSpec(lenBytes: nat, lcnBytes: nat, length: nat, delta: int)
  {
    ghost predicate Encodable() {
      && lenBytes <= 8 && 1 <= lcnBytes <= 4 && length < Radix(lenBytes)
      && -(Pow2(8 * lcnBytes - 1) as int) <= delta < Pow2(8 * lcnBytes - 1)
    }

    /** Distances the parser reads back. */
    ghost predicate Readable()
      requires Encodable()
    {
      delta >= -(Pow2(8 * lcnBytes - 2) as int)
    }

    /** Two's complement in lcnBytes bytes. */
    ghost function Raw(): nat
      requires Encodable()
    {
      RadixIsPow2(lcnBytes);
      if delta >= 0 then delta else Radix(lcnBytes) + delta
    }
  }

  ghost function EncodeRun(r: RunSpec): seq<Byte>
    requires r.Encodable()
  {
    [16 * r.lcnBytes + r.lenBytes] + ToLe(r.length, r.lenBytes) + ToLe(r.Raw(), r.lcnBytes)
  }

  lemma ModOnce(v: nat, m: nat)
    requires m <= v < 2 * m
    ensures v % m == v - m
  {
  }

  /** Called with the index of the top bit, sign_extend64 drops that bit and extends from the one
      below it. */
  lemma {:induction false} ExtendBelowTop(v: nat, bits: nat)
    requires bits > 0 && Pow2(bits) <= v < 2 * Pow2(bits)
    ensures Log2(v) == bits
    ensures Pow2(bits) == 2 * Pow2(bits - 1)
    ensures SignExtend(v, bits) == (if v >= 3 * Pow2(bits - 1) then v - 4 * Pow2(bits - 1) else v - 2 * Pow2(bits - 1))
  {
    assert Pow2(bits + 1) == 2 * Pow2(bits);
    Log2Is(v, bits);
    ModOnce(v, Pow2(bits));
  }

  /** The distance comes back if and only if it is at least -2^(8k-2): one bit of range is lost. */
  lemma {:induction false} DistanceIff(r: RunSpec)
    requires r.Encodable()
    ensures Distance(ToLe(r.Raw(), r.lcnBytes)) == r.delta <==> r.Readable()
  {
    var k := r.lcnBytes;
    var raw, top := ToLe(r.Raw(), k), 8 * k - 1;
    RadixIsPow2(k);
    assert Pow2(8 * k) == 2 * Pow2(top) && Pow2(top) == 2 * Pow2(top - 1);
    hide Pow2, Radix, ToLe, Le, Log2, SignExtend;
    LeToLe(r.Raw(), k);
    TopByte(raw);
    if r.delta < 0 {
      ExtendBelowTop(r.Raw(), top);
    }
  }

  lemma Slices(before: seq<Byte>, head: Byte, a: seq<Byte>, b: seq<Byte>, after: seq<Byte>)
    ensures var data, at := before + ([head] + a + b) + after, |before|;
            && data[at] == head && data[at + 1..at + 1 + |a|] == a
            && data[at + 1 + |a|..at + 1 + |a| + |b|] == b
  {
  }

  lemma {:induction false} ParseAt(data: seq<Byte>, at: nat, a: seq<Byte>, b: seq<Byte>)
    requires |a| <= 8 && 1 <= |b| <= 4 && at + 1 + |a| + |b| <= |data| && data[at] == 16 * |b| + |a|
    requires data[at + 1..at + 1 + |a|] == a && data[at + 1 + |a|..at + 1 + |a| + |b|] == b
    ensures ParseRun(data, at) == Run(Le(a), Distance(b), at + 1 + |a| + |b|)
  {
    hide Le, Distance, Upper, Lower;
    Nibbles(|b|, |a|);
    var lenBytes, lcnBytes, head := |a|, |b|, data[at];
    assert head > 0 && Upper(head) == lcnBytes && Lower(head) == lenBytes;
    var mid := at + 1 + lenBytes;
    assert data[at + 1..mid] == a && data[mid..mid + lcnBytes] == b;
  }

  lemma {:induction false} ParseBytes(before: seq<Byte>, head: Byte, a: seq<Byte>, b: seq<Byte>, after: seq<Byte>)
    requires |a| <= 8 && 1 <= |b| <= 4 && head == 16 * |b| + |a|
    ensures ParseRun(before + ([head] + a + b) + after, |before|) == Run(Le(a), Distance(b), |before| + 1 + |a| + |b|)
  {
    hide Le, Distance, ParseRun;
    Slices(before, head, a, b, after);
    ParseAt(before + ([head] + a + b) + after, |before|, a, b);
  }

  lemma {:induction false} ParseEncoded(r: RunSpec, before: seq<Byte>, after: seq<Byte>)
    requires r.Encodable() && r.Readable()
    ensures ParseRun(before + EncodeRun(r) + after, |before|) == Run(r.length, r.delta, |before| + |EncodeRun(r)|)
  {
    hide Pow2, Radix, ToLe, Le, Log2, Distance, ParseRun;
    ParseBytes(before, 16 * r.lcnBytes + r.lenBytes, ToLe(r.length, r.lenBytes), ToLe(r.Raw(), r.lcnBytes), after);
    LeToLe(r.length, r.lenBytes);
    DistanceIff(r);
  }

  /** Example: with one byte, -64 is the smallest distance that survives; -65 reads as 63. */
  lemma {:induction false} LostSign()
    ensures Distance(ToLe(256 - 64, 1)) == -64 && Distance(ToLe(256 - 65, 1)) == 63
  {
    assert Pow2(6) == 64 && Pow2(7) == 128 && Pow2(8) == 256;
    assert ToLe(192, 1) == [192] && ToLe(191, 1) == [191];
    assert Le([192]) == 192 && Le([191]) == 191;
    Log2Is(192, 7);
    Log2Is(191, 7);
  }

  /** A run list and its end marker. */
  ghost function EncodeRuns(rs: seq<RunSpec>): seq<Byte>
    requires forall i :: 0 <= i < |rs| ==> rs[i].Encodable()
  {
    if rs == [] then [0] else EncodeRun(rs[0]) + EncodeRuns(rs[1..])
  }

  ghost predicate AllReadable(rs: seq<RunSpec>) {
    forall i :: 0 <= i < |rs| ==> rs[i].Encodable() && rs[i].Readable()
  }

  /** The list `rs` is encoded in `data` from `at` on. */
  ghost predicate Encodes(data: seq<Byte>, at: nat, rs: seq<RunSpec>)
    requires AllReadable(rs)
  {
    at <= |data| && EncodeRuns(rs) <= data[at..]
  }

  lemma ParseEnd(data: seq<Byte>, at: nat)
    ensures at < |data| && data[at] == 0 ==> ParseRun(data, at) == End
  {
  }

  /** The parser steps through an encoded list run by run, and stops at its end. */
  lemma {:induction false} ParseStep(data: seq<Byte>, at: nat, rs: seq<RunSpec>)
    requires AllReadable(rs) && Encodes(data, at, rs)
    ensures rs == [] ==> ParseRun(data, at) == End
    ensures rs != [] ==>
              && ParseRun(data, at) == Run(rs[0].length, rs[0].delta, at + |EncodeRun(rs[0])|)
              && AllReadable(rs[1..]) && Encodes(data, at + |EncodeRun(rs[0])|, rs[1..])
  {
    hide EncodeRun, ParseRun, Pow2, Radix;
    assert data == data[..at] + data[at..];
    if rs == [] {
      ParseEnd(data, at);
      assert data[at..][0] == 0;
    } else {
      var rest := data[at..][|EncodeRun(rs[0])|..];
      assert data[at..] == EncodeRun(rs[0]) + rest;
      assert data == data[..at] + EncodeRun(rs[0]) + rest;
      ParseEncoded(rs[0], data[..at], rest);
      assert rest == data[at + |EncodeRun(rs[0])|..];
      var whole := EncodeRuns(rs);
      assert whole[|EncodeRun(rs[0])|..] == EncodeRuns(rs[1..]);
      assert whole == data[at..][..|whole|];
      assert EncodeRuns(rs[1..]) == rest[..|EncodeRuns(rs[1..])|];
    }
  }

  /** What a run list means: lengths, and first clusters as running sums of the distances. */
  function Clusters(rs: seq<RunSpec>, prev: int): seq<(nat, int)> {
    if rs == [] then [] else [(rs[0].length, prev + rs[0].delta)] + Clusters(rs[1..], prev + rs[0].delta)
  }

  /** What the callers of the parser make of the bytes, up to the end marker. */
  function ParseAll(data: seq<Byte>, at: nat, prev: int): seq<(nat, int)>
    decreases |data| - at
  {
    match ParseRun(data, at)
    case Run(length, lcn, next) =>
      if at < next <= |data| then [(length, prev + lcn)] + ParseAll(data, next, prev + lcn) else []
    case _ => []
  }

  /** Encoding and then parsing any readable run list gives its lengths and clusters back. */
  lemma {:induction false} RunsRoundTrip(data: seq<Byte>, at: nat, rs: seq<RunSpec>, prev: int)
    requires AllReadable(rs) && Encodes(data, at, rs)
    ensures ParseAll(data, at, prev) == Clusters(rs, prev)
    decreases |rs|
  {
    hide ParseRun, EncodeRun, EncodeRuns, RunSpec.Encodable, RunSpec.Readable;
    ParseStep(data, at, rs);
    if rs != [] {
      RunWidth(rs[0]);
      RunsRoundTrip(data, at + |EncodeRun(rs[0])|, rs[1..], prev + rs[0].delta);
    }
  }

  lemma RunWidth(r: RunSpec)
    requires r.Encodable()
    ensures |EncodeRun(r)| == 1 + r.lenBytes + r.lcnBytes
  {
  }
}
