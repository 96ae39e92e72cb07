/**
 The BSON encoder and decoder (bson-encoder.c, bson-decoder.c): one growable buffer that is
 written, framed in place, and read back by advancing a position while a size counts down.
 The wire format itself is module BsonSpec.
 */
module Bson {
  import opened Bytes
  import opened BsonSpec

  const START_SIZE: nat := 4096

  /** An open file: its bytes and the read offset. */
  class FileStream {
    var contents: seq<Byte>
    var offset: nat

    ghost predicate Valid()
      reads this
    {
      offset <= |contents|
    }

    ghost function Rest(): seq<Byte>
      reads this
      requires Valid()
    {
      contents[offset..]
    }

    constructor (contents: seq<Byte>)
      ensures Valid() && offset == 0 && this.contents == contents
    {
      this.contents := contents;
      offset := 0;
    }

    /** fread: up to `n` bytes, fewer only at the end of the file. */
    method Read(n: nat) returns (r: seq<Byte>)
      requires Valid()
      modifies this`offset
      ensures Valid()
      ensures |r| == Min(n, |old(Rest())|) && r == old(Rest())[..|r|] && Rest() == old(Rest())[|r|..]
    {
      var k := Min(n, |contents| - offset);
      r := contents[offset..offset + k];
      offset := offset + k;
    }
  }

  /** The size after doubling: the first size in the doubling sequence that is large enough. */
  method NewSize(oldSize: nat, needed: nat) returns (r: nat)
    requires 0 < oldSize <= 0x7fff_ffff && needed <= MAX_SIZE
    ensures oldSize <= r && needed <= r <= 0x7fff_ffff
    ensures exists k: nat :: r == oldSize * Pow2(k) && (k == 0 || oldSize * Pow2(k - 1) < needed)
  {
    r := oldSize;
    ghost var k: nat := 0;
    while r < needed
      invariant oldSize <= r <= 0x7fff_ffff
      invariant r == oldSize * Pow2(k) && (k == 0 || oldSize * Pow2(k - 1) < needed)
    {
      assert oldSize * Pow2(k + 1) == 2 * (oldSize * Pow2(k));
      r := r * 2;
      k := k + 1;
    }
  }

  /** The size field after `n` bytes: an unsigned 64-bit number that nothing keeps from wrapping. */
  function Down(size: nat, n: int): (r: nat)
    ensures r < TWO64
  {
    (size - n) % TWO64
  }

  /** The position after `n` bytes, in the same arithmetic. */
  function Up(position: nat, n: int): (r: nat)
    ensures r < TWO64
  {
    (position + n) % TWO64
  }

  lemma UpTwice(position: nat, a: int, b: int)
    ensures Up(Up(position, a), b) == Up(position, a + b)
  {
  }

  lemma UpInside(position: nat, n: int)
    requires 0 <= position + n < TWO64
    ensures Up(position, n) == position + n
  {
  }

  lemma DownTwice(size: nat, a: int, b: int)
    ensures Down(Down(size, a), b) == Down(size, a + b)
  {
  }

  lemma DownNone(size: nat)
    requires size < TWO64
    ensures Down(size, 0) == size
  {
  }

  /** Within a capacity below 2^31, the size stays inside exactly when what is taken off is neither
      more than there is nor so negative that the size outgrows the capacity. */
  lemma DownIff(size: nat, n: int, capacity: nat)
    requires size <= capacity <= 0x7fff_ffff && -0x2_0000_0000 <= n <= 0x2_0000_0000
    ensures Down(size, n) <= capacity <==> size - capacity <= n <= size
    ensures n <= size ==> Down(size, n) == size - n
  {
  }

  lemma Together(position: nat, size: nat, a: int, b: int)
    ensures Up(Up(position, a), b) == Up(position, a + b) && Down(Down(size, a), b) == Down(size, a + b)
  {
    UpTwice(position, a, b);
    DownTwice(size, a, b);
  }

  lemma SmallStep(size: nat, position: nat)
    requires size < TWO64 && position < TWO64
    ensures Down(size, 0) == size && Up(position, 0) == position
  {
  }

  lemma {:induction false} TakenBound(b: seq<Byte>, p: nat, size: nat)
    requires |b| <= 0x7fff_ffff && Decode(b, p, size) != Overrun
    ensures -0x8000_0000 <= Taken(b, p, size) <= 0x2_0000_0000
  {
    hide FindNul;
    if size >= 2 {
      var z := FindNul(b, p + 1);
      if z + 5 <= |b| {
        LengthBound(b, z + 1);
      }
      hide Length, Width;
      WidthBound(b[p]);
    }
  }

  lemma WidthBound(tag: Byte)
    ensures -1 <= Width(tag) <= 12
  {
  }

  lemma {:induction false} LengthBound(b: seq<Byte>, p: nat)
    requires p + 4 <= |b|
    ensures -0x8000_0000 <= Length(b, p) <= 0x7fff_ffff
  {
    LeBound(b[p..p + 4]);
    assert Radix(4) == TWO32 by {
      assert Radix(2) == 0x1_0000;
    }
  }

  class BsonInfo {
    var buffer: array<Byte>
    var size: nat
    var position: nat

    /** The size field never promises more than the buffer holds. */
    ghost predicate Valid()
      reads this
    {
      size <= buffer.Length && buffer.Length <= 0x7fff_ffff
    }

    ghost predicate Writing()
      reads this
    {
      Valid() && 0 < size && position <= size
    }

    ghost function Written(): seq<Byte>
      reads this, buffer
      requires Writing()
    {
      buffer[..position]
    }

    constructor ()
      ensures Writing() && fresh(buffer) && Written() == [] && size == START_SIZE
    {
      buffer := new Byte[START_SIZE];
      size := START_SIZE;
      position := 0;
    }

    method Resize(needed: nat)
      requires Writing() && needed <= MAX_SIZE
      modifies this
      ensures Writing() && fresh(buffer) && needed <= size
      ensures Written() == old(Written()) && position == old(position)
    {
      var grown := NewSize(size, needed);
      var bytes := new Byte[grown];
      forall i | 0 <= i < size {
        bytes[i] := buffer[i];
      }
      assert bytes[..position] == buffer[..position];
      buffer := bytes;
      size := grown;
    }

    method CheckSize(added: nat)
      requires Writing() && position + added <= MAX_SIZE
      modifies this
      ensures Writing() && (buffer == old(buffer) || fresh(buffer)) && position + added <= size
      ensures Written() == old(Written()) && position == old(position)
      ensures position + added <= old(size) ==> buffer == old(buffer) && size == old(size)
    {
      if position + added > size {
        Resize(position + added);
      }
    }

    /** memcpy of `bytes` to the current position, which then moves past them. */
    method Put(bytes: seq<Byte>)
      requires Writing() && position + |bytes| <= size
      modifies this`position, buffer
      ensures Writing() && buffer == old(buffer) && size == old(size)
      ensures Written() == old(Written()) + bytes
    {
      forall i | 0 <= i < |bytes| {
        buffer[position + i] := bytes[i];
      }
      position := position + |bytes|;
      assert buffer[..position] == old(buffer[..position]) + bytes;
    }

    /** double, int32, int64, object id, boolean and sub-document: a size check and a copy. */
    method SerializeRaw(raw: seq<Byte>)
      requires Writing() && position + |raw| <= MAX_SIZE
      modifies this, buffer
      ensures Writing() && (buffer == old(buffer) || fresh(buffer))
      ensures Written() == old(Written()) + raw
    {
      CheckSize(|raw|);
      Put(raw);
    }

    method SerializeCString(s: seq<Byte>)
      requires Writing() && position + |s| + 1 <= MAX_SIZE
      modifies this, buffer
      ensures Writing() && (buffer == old(buffer) || fresh(buffer))
      ensures Written() == old(Written()) + (s + [0])
    {
      CheckSize(|s| + 1);
      Put(s + [0]);
    }

    method SerializeString(s: seq<Byte>)
      requires Writing() && position + |EncodeText(s)| <= MAX_SIZE
      modifies this, buffer
      ensures Writing() && (buffer == old(buffer) || fresh(buffer))
      ensures Written() == old(Written()) + EncodeText(s)
    {
      CheckSize(|s| + 1 + 4);
      Put(ToLe(|s| + 1, 4));
      Put(s);
      Put([0]);
      assert Written() == old(Written()) + (ToLe(|s| + 1, 4) + s + [0]);
    }

    method SerializeBinary(subtype: Byte, data: seq<Byte>)
      requires Writing() && position + 4 + 1 + |data| <= MAX_SIZE
      modifies this, buffer
      ensures Writing() && (buffer == old(buffer) || fresh(buffer))
      ensures Written() == old(Written()) + (ToLe(|data|, 4) + [subtype] + data)
    {
      CheckSize(4 + 1 + |data|);
      Put(ToLe(|data|, 4));
      Put([subtype]);
      Put(data);
      assert Written() == old(Written()) + (ToLe(|data|, 4) + [subtype] + data);
    }

    method SerializeDbPointer(text: seq<Byte>, raw: seq<Byte>)
      requires Writing() && position + |EncodeText(text)| + |raw| <= MAX_SIZE
      modifies this, buffer
      ensures Writing() && (buffer == old(buffer) || fresh(buffer))
      ensures Written() == old(Written()) + (EncodeText(text) + raw)
    {
      SerializeString(text);
      SerializeRaw(raw);
      assert Written() == old(Written()) + (EncodeText(text) + raw);
    }

    /** The payloads without a length prefix: their bytes are copied, if there are any. */
    method SerializeFixed(p: Payload)
      requires Writing() && ValidPayload(p) && Width(Tag(p)) >= 0 && position + |EncodePayload(p)| <= MAX_SIZE
      modifies this, buffer
      ensures Writing() && (buffer == old(buffer) || fresh(buffer))
      ensures Written() == old(Written()) + EncodePayload(p)
    {
      match p {
        case Double(raw) => SerializeRaw(raw);
        case ObjectId(raw) => SerializeRaw(raw);
        case Boolean(flag) => SerializeRaw([if flag then 1 else 0]);
        case DateTime(raw) => SerializeRaw(raw);
        case Int32(raw) => SerializeRaw(raw);
        case Timestamp(raw) => SerializeRaw(raw);
        case Int64(raw) => SerializeRaw(raw);
        case _ =>
      }
    }

    method SerializePayload(p: Payload)
      requires Writing() && ValidPayload(p) && position + |EncodePayload(p)| <= MAX_SIZE
      modifies this, buffer
      ensures Writing() && (buffer == old(buffer) || fresh(buffer))
      ensures Written() == old(Written()) + EncodePayload(p)
    {
      match p {
        case Text(text) => SerializeString(text);
        case Js(text) => SerializeString(text);
        case Symbol(text) => SerializeString(text);
        case Document(doc) => SerializeRaw(doc);
        case Array(doc) => SerializeRaw(doc);
        case Binary(subtype, data) => SerializeBinary(subtype, data);
        case DbPointer(text, raw) => SerializeDbPointer(text, raw);
        case _ => SerializeFixed(p);
      }
    }

    /** bson_serialize: the element is appended to what has been written. */
    method Serialize(kv: Kv)
      requires Writing() && BsonSpec.Valid(kv) && position + |Encode(kv)| <= MAX_SIZE
      modifies this, buffer
      ensures Writing() && (buffer == old(buffer) || fresh(buffer))
      ensures Written() == old(Written()) + Encode(kv)
    {
      CheckSize(1);
      Put([Tag(kv.payload)]);
      SerializeCString(kv.key);
      SerializePayload(kv.payload);
      assert Written() == old(Written())
                          + ([Tag(kv.payload)] + kv.key + [0] + EncodePayload(kv.payload));
    }

    /** bson_finalize: frame in place by shifting everything up four bytes. */
    method Finalize()
      requires Writing() && position + 5 <= MAX_SIZE
      modifies this, buffer
      ensures Writing() && (buffer == old(buffer) || fresh(buffer))
      ensures Written() == Frame(old(Written()))
    {
      CheckSize(5);
      ghost var elements := Written();
      PutInFront(ToLe(position + 5, 4));
      position := position + 4;
      buffer[position] := 0;
      position := position + 1;
      assert Written() == ToLe(|elements| + 5, 4) + elements + [0];
    }

    /** Shift what was written up by four bytes and store the length in front. */
    method PutInFront(total: seq<Byte>)
      requires |total| == 4 && position + 4 <= buffer.Length
      modifies buffer
      ensures buffer[..position + 4] == total + old(buffer[..position])
    {
      forall i | 0 <= i < position {
        buffer[i + 4] := buffer[i];
      }
      assert buffer[4..position + 4] == old(buffer[..position]);
      forall i | 0 <= i < 4 {
        buffer[i] := total[i];
      }
    }

    /** bson_make_readable: skip the length prefix and count down from it. The prefix is a signed
        32-bit number that nothing checks. */
    method MakeReadable() returns (ok: bool)
      requires Valid()
      modifies this`size, this`position
      ensures ok == (5 <= old(size))
      ensures !ok ==> size == old(size) && position == old(position)
      ensures ok ==> position == 4 && size == (Signed32(Le(buffer[..4])) - 4) % TWO64
      ensures ok ==> (Valid() <==> 4 <= Le(buffer[..4]) <= Min(0x7fff_ffff, buffer.Length + 4))
    {
      if size < 5 {
        return false;
      }
      LeBound(buffer[..4]);
      assert Radix(4) == TWO32 by {
        assert Radix(2) == 0x1_0000;
      }
      size := (Signed32(Le(buffer[..4])) - 4) % TWO64;
      position := 4;
      return true;
    }

    // ---------------------------------------------------------------- reading

    /** strlen from `p`, stopping at the end of the buffer. */
    method ScanNul(p: nat) returns (z: nat)
      requires p <= buffer.Length
      ensures z == FindNul(buffer[..], p)
    {
      z := p;
      while z < buffer.Length && buffer[z] != 0
        invariant p <= z <= buffer.Length
        invariant FindNul(buffer[..], p) == FindNul(buffer[..], z)
      {
        z := z + 1;
      }
    }

    method ReadLength(p: nat) returns (n: int)
      requires p + 4 <= buffer.Length
      ensures n == Length(buffer[..], p)
    {
      assert buffer[..][p..p + 4] == buffer[p..p + 4];
      n := Signed32(Le(buffer[p..p + 4]));
    }

    /** Move the position, and count the size down by as much: both 64-bit, the amount signed. */
    method Advance(n: int)
      modifies this`size, this`position
      ensures position == Up(old(position), n) && size == Down(old(size), n)
    {
      position := Up(position, n);
      size := Down(size, n);
    }

    method DeserializeText(tag: Byte) returns (body: Body)
      requires tag == 0x02 || tag == 0x0d || tag == 0x0e
      modifies this`size, this`position
      ensures body == DecodePayload(tag, buffer[..], old(position))
      ensures body.Body? || body.Beyond? ==> MovedBy(old(position), old(size), End(body) - old(position))
      ensures body.Outside? ==> position == old(position) && size == old(size)
    {
      var p := position;
      if p + 4 > buffer.Length {
        return Outside;
      }
      var n := ReadLength(p);
      Advance(4 + n);
      if 1 <= n && p + 4 + n <= buffer.Length {
        var text := buffer[p + 4..p + 4 + n - 1];
        assert text == buffer[..][p + 4..p + 4 + n - 1];
        body := Body.Body(TextOf(tag, text), p + 4 + n);
      } else {
        body := Beyond(p + 4 + n);
      }
    }

    method DeserializeDocument(tag: Byte) returns (body: Body)
      requires tag == 0x03 || tag == 0x04
      modifies this`size, this`position
      ensures body == DecodePayload(tag, buffer[..], old(position))
      ensures body.Body? || body.Beyond? ==> MovedBy(old(position), old(size), End(body) - old(position))
      ensures body.Outside? ==> position == old(position) && size == old(size)
    {
      var p := position;
      if p + 4 > buffer.Length {
        return Outside;
      }
      var n := ReadLength(p);
      Advance(n);
      if 0 <= n && p + n <= buffer.Length {
        var doc := buffer[p..p + n];
        assert doc == buffer[..][p..p + n];
        body := Body.Body(if tag == 0x03 then Document(doc) else Array(doc), p + n);
      } else {
        body := Beyond(p + n);
      }
    }

    method DeserializeBinary() returns (body: Body)
      modifies this`size, this`position
      ensures body == DecodePayload(0x05, buffer[..], old(position))
      ensures body.Body? || body.Beyond? ==> MovedBy(old(position), old(size), End(body) - old(position))
      ensures body.Outside? ==> position == old(position) && size == old(size)
    {
      var p := position;
      if p + 5 > buffer.Length {
        return Outside;
      }
      var n := ReadLength(p);
      Advance(4 + 1 + n);
      if 0 <= n && p + 5 + n <= buffer.Length {
        var data := buffer[p + 5..p + 5 + n];
        assert data == buffer[..][p + 5..p + 5 + n];
        body := Body.Body(Binary(buffer[p + 4], data), p + 5 + n);
      } else {
        body := Beyond(p + 5 + n);
      }
    }

    method DeserializeDbPointer() returns (body: Body)
      modifies this`size, this`position
      ensures body == DecodePayload(0x0c, buffer[..], old(position))
      ensures body.Body? || body.Beyond? ==> MovedBy(old(position), old(size), End(body) - old(position))
      ensures body.Outside? ==> position == old(position) && size == old(size)
    {
      var p := position;
      if p + 4 > buffer.Length {
        return Outside;
      }
      var n := ReadLength(p);
      Advance(4 + n + 12);
      if 1 <= n && p + 4 + n + 12 <= buffer.Length {
        var text := buffer[p + 4..p + 4 + n - 1];
        assert text == buffer[..][p + 4..p + 4 + n - 1];
        var raw := buffer[p + 4 + n..p + 4 + n + 12];
        assert raw == buffer[..][p + 4 + n..p + 4 + n + 12];
        body := Body.Body(DbPointer(text, raw), p + 4 + n + 12);
      } else {
        body := Beyond(p + 4 + n + 12);
      }
    }

    method DeserializeFixed(tag: Byte) returns (body: Body)
      modifies this`size, this`position
      ensures body == DecodeFixed(tag, buffer[..], old(position))
      ensures body.Body? || body.Beyond? ==> MovedBy(old(position), old(size), End(body) - old(position))
      ensures body.BadTag? || body.Outside? ==> position == old(position) && size == old(size)
    {
      var p := position;
      var n := Width(tag);
      if n < 0 {
        return BadTag;
      }
      Advance(n);
      if p + n <= buffer.Length {
        var raw := buffer[p..p + n];
        assert raw == buffer[..][p..p + n];
        body := Body.Body(FixedOf(tag, raw), p + n);
      } else {
        body := Beyond(p + n);
      }
    }

    /** Where a value that is returned ends. */
    static function End(body: Body): int
      requires body.Body? || body.Beyond?
    {
      if body.Body? then body.next else body.target
    }

    ghost predicate MovedBy(position0: nat, size0: nat, n: int)
      reads this`position, this`size
    {
      position == Up(position0, n) && size == Down(size0, n)
    }

    method DeserializePayload(tag: Byte) returns (body: Body)
      modifies this`size, this`position
      ensures body == DecodePayload(tag, buffer[..], old(position))
      ensures body.Body? || body.Beyond? ==> MovedBy(old(position), old(size), End(body) - old(position))
      ensures body.BadTag? || body.Outside? ==> position == old(position) && size == old(size)
    {
      if tag == 0x02 || tag == 0x0d || tag == 0x0e {
        body := DeserializeText(tag);
      } else if tag == 0x03 || tag == 0x04 {
        body := DeserializeDocument(tag);
      } else if tag == 0x05 {
        body := DeserializeBinary();
      } else if tag == 0x0c {
        body := DeserializeDbPointer();
      } else {
        body := DeserializeFixed(tag);
      }
    }

    /** The type byte and the key of the next element; the position moves past both. */
    method DeserializeKey() returns (found: bool, tag: Byte, key: seq<Byte>)
      requires buffer.Length < TWO64
      modifies this`size, this`position
      ensures found <==> old(position) < buffer.Length && FindNul(buffer[..], old(position) + 1) < buffer.Length
      ensures !found ==> position == old(position) && size == old(size)
      ensures found ==>
                var z := FindNul(buffer[..], old(position) + 1);
                tag == buffer[old(position)] && key == buffer[..][old(position) + 1..z]
                && position == z + 1 && size == Down(old(size), position - old(position))
    {
      found, tag, key := false, 0, [];
      if position < buffer.Length {
        var z := ScanNul(position + 1);
        if z < buffer.Length {
          found, tag, key := true, buffer[position], buffer[position + 1..z];
          assert key == buffer[..][position + 1..z];
          UpInside(position, z + 1 - position);
          Advance(z + 1 - position);
        }
      }
    }

    /** bson_deserialize: one element, the end, or an error. What is added to the position is taken
        off the size, both modulo 2^64 and with the sign of the length read. Unless the call reads
        outside the buffer, the size stays within the capacity if and only if what is taken off is
        neither more than the size nor less than the size minus the capacity. */
    method Deserialize() returns (r: Decoded)
      requires size < TWO64 && position < TWO64 && buffer.Length < TWO64
      requires size == 1 ==> position < buffer.Length && buffer[position] == 0
      modifies this`size, this`position
      ensures r == Decode(buffer[..], old(position), old(size))
      ensures !r.Overrun? ==> MovedBy(old(position), old(size), Taken(buffer[..], old(position), old(size)))
      ensures r.Item? ==> position == r.next
      ensures old(Valid()) && !r.Overrun? ==>
                (Valid() <==> old(size) - buffer.Length <= Taken(buffer[..], old(position), old(size)) <= old(size))
    {
      hide DecodePayload, FindNul, Down, Up;
      ghost var b := buffer[..];
      if size < 2 {
        SmallStep(size, position);
        if old(Valid()) {
          DownIff(size, size, buffer.Length);
        }
        if size == 1 {
          Advance(1);
        }
        return BsonSpec.Decoded.End;
      }
      var found, tag, key := DeserializeKey();
      if !found {
        return Overrun;
      }
      ghost var p, left := position, size;
      var body := DeserializePayload(tag);
      match body {
        case Body(payload, next) => r := Item(Kv(key, payload), next);
        case Beyond(target) => r := Astray(key, target);
        case BadTag => r := BadType;
        case Outside => r := Overrun;
      }
      ghost var taken := Taken(b, old(position), old(size));
      if !r.Overrun? {
        Together(old(position), old(size), p - old(position), taken - (p - old(position)));
        DownNone(left);
        UpInside(old(position), p - old(position));
      }
      if r.Item? {
        DecodeMoves(b, old(position), old(size));
        UpInside(old(position), taken);
      }
      if old(Valid()) && !r.Overrun? {
        TakenBound(b, old(position), old(size));
        DownIff(old(size), taken, buffer.Length);
      }
    }

    // ---------------------------------------------------------------- files

    /** bson_readf: 1 with the next document in the buffer, 0 at the end of the file, -1 on a
        short or negative-length document. The buffer is kept when its size field is enough; it
        spills when that field promises more than the buffer holds. */
    method ReadDocument(file: FileStream) returns (code: int, spilled: bool)
      requires size < TWO64 && buffer.Length <= 0x7fff_ffff && file.Valid()
      modifies this, buffer, file`offset
      ensures file.Valid() && (buffer == old(buffer) || fresh(buffer))
      ensures spilled <==> Spills(old(file.Rest()), old(size), old(buffer).Length)
      ensures old(Valid()) ==> !spilled && Valid()
      ensures !spilled ==> (code == 1 <==> NextDocument(old(file.Rest())).Some?)
      ensures code == 1 ==>
                && Valid() && NextDocument(old(file.Rest())).Some?
                && var d := NextDocument(old(file.Rest())).value;
                position == 0 && size == |d| && buffer[..size] == d
                && file.Rest() == old(file.Rest())[4 + |d|..]
      ensures code == 0 <==> |old(file.Rest())| < 4
      ensures code == 0 ==> file.Rest() == []
      ensures code == 1 || code == 0 || code == -1
    {
      hide Want, Le;
      var head := file.Read(4);
      if |head| != 4 {
        return 0, false;
      }
      var want := Want(head);
      WantIs(head);
      if size < want {
        if want > 0x7fff_ffff {
          return -1, false;
        }
        buffer := new Byte[want];
      }
      var bytes := file.Read(want);
      if |bytes| > buffer.Length {
        return -1, true;
      }
      forall i | 0 <= i < |bytes| {
        buffer[i] := bytes[i];
      }
      if |bytes| != want {
        return -1, false;
      }
      size := want;
      position := 0;
      assert buffer[..size] == bytes;
      return 1, false;
    }
  }

  /** What the next read puts in a buffer it keeps does not fit it. */
  predicate Spills(rest: seq<Byte>, size: nat, capacity: nat) {
    |rest| >= 4 && Want(rest[..4]) <= size && Min(Want(rest[..4]), |rest| - 4) > capacity
  }

  /** The body length a document's prefix announces: signed, then compared and read as unsigned, so
      that a negative one is more than any memory holds. */
  function Want(head: seq<Byte>): (r: nat)
    ensures r < TWO64
  {
    (Signed32(Le(head)) - 4) % TWO64
  }

  lemma {:induction false} WantIs(head: seq<Byte>)
    requires |head| == 4
    ensures if 4 <= Le(head) <= 0x7fff_ffff then Want(head) == Le(head) - 4 else Want(head) > 0x7fff_ffff
  {
    LeBound(head);
    assert Radix(4) == TWO32 by {
      assert Radix(2) == 0x1_0000;
    }
  }

  /** bson_init, bson_serialize for each element, bson_finalize. */
  method WriteDocument(kvs: seq<Kv>) returns (info: BsonInfo)
    requires forall i :: 0 <= i < |kvs| ==> BsonSpec.Valid(kvs[i])
    requires |EncodeAll(kvs)| + 5 <= MAX_SIZE
    ensures fresh(info) && fresh(info.buffer) && info.Writing() && info.Written() == Frame(EncodeAll(kvs))
  {
    hide Encode, EncodeAll, BsonSpec.Valid, Frame;
    info := new BsonInfo();
    var i := 0;
    assert kvs[0..] == kvs;
    while i < |kvs|
      invariant 0 <= i <= |kvs| && info.Writing() && fresh(info.buffer)
      invariant info.Written() + EncodeAll(kvs[i..]) == EncodeAll(kvs)
    {
      ghost var before, rest := info.Written(), EncodeAll(kvs[i + 1..]);
      EncodeAllFrom(kvs, i);
      info.Serialize(kvs[i]);
      assert before + Encode(kvs[i]) + rest == before + (Encode(kvs[i]) + rest);
      i := i + 1;
    }
    EncodeNone(kvs[i..]);
    assert info.Written() == EncodeAll(kvs);
    info.Finalize();
  }

  lemma EncodeNone(kvs: seq<Kv>)
    requires kvs == []
    ensures EncodeAll(kvs) == []
  {
  }

  lemma {:induction false} EncodeAllFrom(kvs: seq<Kv>, i: nat)
    requires i < |kvs|
    ensures EncodeAll(kvs[i..]) == Encode(kvs[i]) + EncodeAll(kvs[i + 1..])
  {
    assert kvs[i..][1..] == kvs[i + 1..];
  }

  lemma DecodeEnd(b: seq<Byte>, p: nat)
    ensures Decode(b, p, 1) == End
  {
  }

  /** bson_deserialize until it stops returning elements. At every step the position and the
      size add up to the same number; the terminator is met with size 1, and consumed. */
  method ReadElements(info: BsonInfo, ghost kvs: seq<Kv>) returns (r: seq<Kv>)
    requires forall i :: 0 <= i < |kvs| ==> BsonSpec.Valid(kvs[i])
    requires |EncodeAll(kvs)| < MAX_SIZE && info.size == |EncodeAll(kvs)| + 1 && info.buffer.Length < TWO64
    requires At(info.buffer[..], info.position, EncodeAll(kvs) + [0])
    modifies info`size, info`position
    ensures r == kvs
    ensures info.size == 0 && info.position == old(info.position) + old(info.size)
  {
    hide Encode, EncodeAll, Decode, BsonSpec.Valid;
    r := [];
    while true
      invariant r <= kvs
      invariant info.position + info.size == old(info.position) + old(info.size)
      invariant info.size == |EncodeAll(kvs[|r|..])| + 1 <= MAX_SIZE
      invariant At(info.buffer[..], info.position, EncodeAll(kvs[|r|..]) + [0])
      decreases |kvs| - |r|
    {
      ghost var left := kvs[|r|..];
      if left != [] {
        EncodeAllFrom(kvs, |r|);
        EncodeAllAt(left, info.buffer[..], info.position);
        assert left[1..] == kvs[|r| + 1..];
        ElementRoundTrip(left[0], info.buffer[..], info.position, info.size);
      } else {
        EncodeNone(left);
        DecodeEnd(info.buffer[..], info.position);
      }
      var d := info.Deserialize();
      if !d.Item? {
        break;
      }
      assert d.kv == left[0] && r + [d.kv] == kvs[..|r| + 1];
      r := r + [d.kv];
    }
  }

  /** Serialize all, finalize, make readable, deserialize: the same list. */
  method RoundTrip(kvs: seq<Kv>) returns (r: seq<Kv>)
    requires forall i :: 0 <= i < |kvs| ==> BsonSpec.Valid(kvs[i])
    requires |EncodeAll(kvs)| + 5 <= MAX_SIZE
    ensures r == kvs
  {
    hide Encode, EncodeAll, BsonSpec.Valid, At, Frame, Le, ToLe;
    var info := WriteDocument(kvs);
    FramedAt(info.buffer[..], EncodeAll(kvs));
    var ok := info.MakeReadable();
    r := ReadElements(info, kvs);
  }

  /** A buffer that starts with a framed document: its length in front, its elements behind that. */
  lemma {:induction false} FramedAt(b: seq<Byte>, e: seq<Byte>)
    requires |e| + 5 <= MAX_SIZE && Frame(e) <= b
    ensures |Frame(e)| == |e| + 5 && Le(b[..4]) == |e| + 5 && At(b, 4, e + [0])
  {
    FrameIsFramed(e);
    assert b[..4] == Frame(e)[..4];
    assert Frame(e) == ToLe(|e| + 5, 4) + (e + [0]);
    assert b[4..|Frame(e)|] == Frame(e)[4..];
  }

  /** The document at the head of a file, without its length prefix. */
  function NextDocument(rest: seq<Byte>): (r: Option<seq<Byte>>)
    ensures r.Some? ==> 4 + |r.value| <= |rest|
  {
    if |rest| < 4 then None else
    var n := Le(rest[..4]);
    if 4 <= n <= 0x7fff_ffff && n <= |rest| then Some(rest[4..n]) else None
  }

  function Concat(docs: seq<seq<Byte>>): seq<Byte> {
    if docs == [] then [] else docs[0] + Concat(docs[1..])
  }

  lemma {:induction false} NextOfConcat(docs: seq<seq<Byte>>)
    requires docs != [] && Framed(docs[0]) && |docs[0]| <= MAX_SIZE
    ensures NextDocument(Concat(docs)) == Some(docs[0][4..])
    ensures Concat(docs)[|docs[0]|..] == Concat(docs[1..])
  {
    var d := docs[0];
    var all := Concat(docs);
    assert all[..4] == d[..4];
    assert all[4..|d|] == d[4..];
  }

  /** Reading until bson_readf stops returns exactly the documents that were concatenated,
      whatever buffer the reader starts with. */
  method ReadDocuments(info: BsonInfo, file: FileStream, ghost docs: seq<seq<Byte>>) returns (bodies: seq<seq<Byte>>)
    requires info.Valid() && file.Valid()
    requires file.Rest() == Concat(docs)
    requires forall i :: 0 <= i < |docs| ==> Framed(docs[i]) && |docs[i]| <= MAX_SIZE
    modifies info, info.buffer, file`offset
    ensures info.Valid() && file.Valid()
    ensures |bodies| == |docs|
    ensures forall i :: 0 <= i < |docs| ==> 4 <= |docs[i]| && bodies[i] == docs[i][4..]
    ensures file.Rest() == []
  {
    bodies := [];
    while true
      invariant info.Valid() && file.Valid() && (info.buffer == old(info.buffer) || fresh(info.buffer))
      invariant |bodies| <= |docs| && file.Rest() == Concat(docs[|bodies|..])
      invariant forall i :: 0 <= i < |bodies| ==> bodies[i] == docs[i][4..]
      decreases |docs| - |bodies|
    {
      ghost var left := docs[|bodies|..];
      if left == [] {
        assert Concat(left) == [];
      } else {
        NextOfConcat(left);
        assert left[1..] == docs[|bodies| + 1..];
      }
      var code, _ := info.ReadDocument(file);
      if code != 1 {
        break;
      }
      bodies := bodies + [info.buffer[..info.size]];
    }
  }

  /** The documents of LeavesDocument and GoesBack: after their element the size field exceeds every
      capacity. */
  lemma {:induction false} SizeEscapes(b: seq<Byte>)
    requires 10 <= |b| <= 0x7fff_ffff
    ensures b[0] == 0x01 && b[1] == 0 && b[4] == 0 ==> Down(5, Taken(b, 0, 5)) > 0x7fff_ffff
    ensures b[..7] == [0x03, 0, 0, 0, 0, 0x80, 0] ==> Down(7, Taken(b, 0, 7)) > 0x7fff_ffff
  {
    if b[0] == 0x01 && b[1] == 0 && b[4] == 0 {
      LeavesDocument(b);
      DownIff(5, 10, 0x7fff_ffff);
    } else if b[..7] == [0x03, 0, 0, 0, 0, 0x80, 0] {
      GoesBack(b);
      DownIff(7, 2 - 0x8000_0000, 0x7fff_ffff);
    }
  }

  /** With such a size field the next document, if it is longer than the buffer, spills. */
  lemma {:induction false} EscapedSpills(rest: seq<Byte>, size: nat, capacity: nat)
    requires size > 0x7fff_ffff && NextDocument(rest).Some?
    ensures Spills(rest, size, capacity) <==> |NextDocument(rest).value| > capacity
  {
    WantIs(rest[..4]);
  }

  /** However many elements are decoded between the reads, and wherever decoding stops, reading
      until bson_readf stops returns exactly the documents that were concatenated: documents that
      these decodes do not leave keep the size field within the capacity. */
  method ReadAndDecode(info: BsonInfo, file: FileStream, calls: nat -> nat, ghost docs: seq<seq<Byte>>)
    returns (bodies: seq<seq<Byte>>)
    requires info.Valid() && file.Valid() && file.Rest() == Concat(docs)
    requires forall i :: 0 <= i < |docs| ==> Framed(docs[i]) && |docs[i]| <= MAX_SIZE && Contained(docs[i][4..], 0, calls(i))
    modifies info, info.buffer, file`offset
    ensures info.Valid() && file.Valid() && file.Rest() == []
    ensures |bodies| == |docs|
    ensures forall i :: 0 <= i < |docs| ==> 4 <= |docs[i]| && bodies[i] == docs[i][4..]
  {
    hide Contained;
    bodies := [];
    while true
      invariant info.Valid() && file.Valid() && (info.buffer == old(info.buffer) || fresh(info.buffer))
      invariant |bodies| <= |docs| && file.Rest() == Concat(docs[|bodies|..])
      invariant forall i :: 0 <= i < |bodies| ==> bodies[i] == docs[i][4..]
      decreases |docs| - |bodies|
    {
      ghost var left := docs[|bodies|..];
      if left == [] {
        assert Concat(left) == [];
      } else {
        NextOfConcat(left);
        assert left[1..] == docs[|bodies| + 1..];
      }
      var code, _ := info.ReadDocument(file);
      if code != 1 {
        break;
      }
      var body := info.buffer[..info.size];
      assert body == docs[|bodies|][4..];
      DecodeSome(info, calls(|bodies|), body);
      bodies := bodies + [body];
    }
  }

  /** Up to `n` calls of bson_deserialize on the document just read, none after an error. */
  method DecodeSome(info: BsonInfo, n: nat, ghost body: seq<Byte>)
    requires info.Valid() && info.position == 0 && info.size == |body| && body <= info.buffer[..] && Contained(body, 0, n)
    modifies info`size, info`position
    ensures info.Valid()
  {
    hide Decode, Taken, Contained, Up, Down;
    for k := 0 to n
      invariant info.Valid() && info.position + info.size == |body| && Contained(body, info.position, n - k)
    {
      ghost var p, taken := info.position, Taken(info.buffer[..], info.position, info.size);
      StepInside(body, info.buffer[..], p, n - k);
      var d := info.Deserialize();
      UpInside(p, taken);
      DownIff(|body| - p, taken, info.buffer.Length);
      if !d.Item? && !d.Astray? && !d.End? {
        break;
      }
    }
  }

  /** One of the calls that stay inside a document, in a buffer that holds more behind it. */
  lemma {:induction false} StepInside(body: seq<Byte>, b: seq<Byte>, p: nat, n: nat)
    requires body <= b && p <= |body| && n > 0 && Contained(body, p, n)
    ensures var size := |body| - p; var d, taken := Decode(b, p, size), Taken(b, p, size);
            && !d.Overrun? && 0 <= p + taken <= |body| && (size == 1 ==> b[p] == 0)
            && (!d.BadType? ==> Contained(body, p + taken, n - 1))
  {
    hide FindNul, DecodePayload;
    var size := |body| - p;
    DecodeMoves(body, p, size);
    DecodePrefix(body, b, p, size);
    if Decode(body, p, size).BadType? {
      BadTypeInside(body, b, p);
    }
  }

  lemma BadTypeInside(a: seq<Byte>, b: seq<Byte>, p: nat)
    requires a <= b && p <= |a|
    ensures Decode(a, p, |a| - p).BadType? ==> FindNul(b, p + 1) < |a|
  {
    if Decode(a, p, |a| - p).BadType? {
      FindNulPrefix(a, b, p + 1);
    }
  }

  /** Finalized documents are such documents. */
  lemma {:induction false} FinalizedIsContained(kvs: seq<Kv>, n: nat)
    requires forall i :: 0 <= i < |kvs| ==> BsonSpec.Valid(kvs[i])
    requires |EncodeAll(kvs)| + 5 <= MAX_SIZE
    ensures var d := Frame(EncodeAll(kvs)); Framed(d) && 4 <= |d| && Contained(d[4..], 0, n)
  {
    var e := EncodeAll(kvs);
    FrameIsFramed(e);
    assert Frame(e)[4..] == e + [0];
    EncodedIsContained(kvs, e + [0], 0, n);
  }
}
