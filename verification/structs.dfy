/**
 Packed little-endian structs: fields in order, each at the sum of the widths before it.
 */
module Structs {
  import opened Bytes

  /** A field: a number of some width, or an array of bytes. */
  datatype Slot = Num(value: nat, width: nat) | Raw(bytes: seq<Byte>)
  {
    function Image(): seq<Byte> {
      match this
      case Num(value, width) => ToLe(value, width)
      case Raw(bytes) => bytes
    }
  }

  function Pack(slots: seq<Slot>): seq<Byte> {
    if slots == [] then [] else Pack(slots[..|slots| - 1]) + slots[|slots| - 1].Image()
  }

  /** Where field `k` starts. */
  function Start(slots: seq<Slot>, k: nat): nat
    requires k <= |slots|
  {
    if k == 0 then 0 else Start(slots, k - 1) + |slots[k - 1].Image()|
  }

  lemma {:induction false} StartOfPrefix(slots: seq<Slot>, n: nat, k: nat)
    requires k <= n <= |slots|
    ensures Start(slots[..n], k) == Start(slots, k)
  {
    if k > 0 {
      StartOfPrefix(slots, n, k - 1);
    }
  }

  lemma {:induction false} PackLength(slots: seq<Slot>)
    ensures |Pack(slots)| == Start(slots, |slots|)
  {
    if slots != [] {
      var n := |slots| - 1;
      PackLength(slots[..n]);
      StartOfPrefix(slots, n, n);
    }
  }

  lemma {:induction false} ImageIn(slots: seq<Slot>, k: nat)
    requires k < |slots|
    ensures At(Pack(slots), Start(slots, k), slots[k].Image())
    decreases |slots|
  {
    var n := |slots| - 1;
    PackLength(slots[..n]);
    StartOfPrefix(slots, n, k);
    hide Slot.Image, Start;
    if k < n {
      ImageIn(slots[..n], k);
    }
    InFront(Pack(slots[..n]), slots[n].Image(), Start(slots, k), slots[k].Image());
  }

  lemma {:induction false} InFront(a: seq<Byte>, b: seq<Byte>, p: nat, x: seq<Byte>)
    requires At(a, p, x) || (p == |a| && x == b)
    ensures At(a + b, p, x)
  {
    if At(a, p, x) {
      assert (a + b)[p..p + |x|] == a[p..p + |x|];
    } else {
      assert (a + b)[p..p + |x|] == b;
    }
  }

  /** A field of a struct that stands somewhere in a buffer. */
  lemma {:induction false} FieldAt(b: seq<Byte>, at: nat, slots: seq<Slot>, k: nat)
    requires At(b, at, Pack(slots)) && k < |slots|
    ensures At(b, at + Start(slots, k), slots[k].Image())
  {
    ImageIn(slots, k);
    hide Pack, Start, Slot.Image, At;
    AtInside(b, at, Pack(slots), Start(slots, k), slots[k].Image());
  }

  /** A number in it reads back. */
  lemma {:induction false} NumberAt(b: seq<Byte>, at: nat, slots: seq<Slot>, k: nat)
    requires At(b, at, Pack(slots)) && k < |slots| && slots[k].Num? && slots[k].value < Radix(slots[k].width)
    ensures var from := at + Start(slots, k);
            from + slots[k].width <= |b| && Le(b[from..from + slots[k].width]) == slots[k].value
  {
    FieldAt(b, at, slots, k);
    LeToLe(slots[k].value, slots[k].width);
  }
}
