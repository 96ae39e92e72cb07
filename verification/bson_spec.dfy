/**
 The BSON wire format as the encoder writes it and the decoder reads it (version 1.0 of the
 BSON specification, productions `document` and `element`), and the proof that the two agree.

 A `Kv` is what the callers of bson_serialize and bson_deserialize exchange. An embedded
 document or array travels as the bytes of an already finalized document, as in the source.
 REGEX and JS_CODE are not part of the format modelled here.
 */
module BsonSpec {
  import opened Bytes

  /** Largest buffer the encoder can grow to before `new_size` overflows an int32. */
  const MAX_SIZE: nat := 0x4000_0000

  datatype Payload =
    | Double(raw: seq<Byte>)
    | Text(text: seq<Byte>)
    | Document(doc: seq<Byte>)
    | Array(doc: seq<Byte>)
    | Binary(subtype: Byte, data: seq<Byte>)
    | Undefined
    | ObjectId(raw: seq<Byte>)
    | Boolean(flag: bool)
    | DateTime(raw: seq<Byte>)
    | Null
    | DbPointer(text: seq<Byte>, raw: seq<Byte>)
    | Js(text: seq<Byte>)
    | Symbol(text: seq<Byte>)
    | Int32(raw: seq<Byte>)
    | Timestamp(raw: seq<Byte>)
    | Int64(raw: seq<Byte>)
    | MinKey
    | MaxKey

  datatype Kv = Kv(key: seq<Byte>, payload: Payload)

  function Tag(p: Payload): Byte {
    match p
    case Double(_) => 0x01
    case Text(_) => 0x02
    case Document(_) => 0x03
    case Array(_) => 0x04
    case Binary(_, _) => 0x05
    case Undefined => 0x06
    case ObjectId(_) => 0x07
    case Boolean(_) => 0x08
    case DateTime(_) => 0x09
    case Null => 0x0a
    case DbPointer(_, _) => 0x0c
    case Js(_) => 0x0d
    case Symbol(_) => 0x0e
    case Int32(_) => 0x10
    case Timestamp(_) => 0x11
    case Int64(_) => 0x12
    case MinKey => 0xff
    case MaxKey => 0x7f
  }

  /** A byte string that starts with its own length, as bson_finalize leaves it. */
  predicate Framed(d: seq<Byte>) {
    5 <= |d| && Le(d[..4]) == |d|
  }

  /** What the encoder demands of its caller: a C-string key, payloads of the right width,
      finalized sub-documents. */
  predicate ValidPayload(p: Payload) {
    match p
    case Double(raw) => |raw| == 8
    case DateTime(raw) => |raw| == 8
    case Timestamp(raw) => |raw| == 8
    case Int64(raw) => |raw| == 8
    case Int32(raw) => |raw| == 4
    case ObjectId(raw) => |raw| == 12
    case DbPointer(text, raw) => |raw| == 12
    case Document(doc) => Framed(doc)
    case Array(doc) => Framed(doc)
    case _ => true
  }

  predicate Valid(kv: Kv) {
    0 !in kv.key && ValidPayload(kv.payload)
  }

  // ---------------------------------------------------------------- encoding

  function EncodeText(s: seq<Byte>): seq<Byte> {
    ToLe(|s| + 1, 4) + s + [0]
  }

  function EncodePayload(p: Payload): seq<Byte> {
    match p
    case Double(raw) => raw
    case Text(text) => EncodeText(text)
    case Document(doc) => doc
    case Array(doc) => doc
    case Binary(subtype, data) => ToLe(|data|, 4) + [subtype] + data
    case Undefined => []
    case ObjectId(raw) => raw
    case Boolean(flag) => [if flag then 1 else 0]
    case DateTime(raw) => raw
    case Null => []
    case DbPointer(text, raw) => EncodeText(text) + raw
    case Js(text) => EncodeText(text)
    case Symbol(text) => EncodeText(text)
    case Int32(raw) => raw
    case Timestamp(raw) => raw
    case Int64(raw) => raw
    case MinKey => []
    case MaxKey => []
  }

  function Encode(kv: Kv): (r: seq<Byte>)
    ensures 2 <= |r|
  {
    [Tag(kv.payload)] + kv.key + [0] + EncodePayload(kv.payload)
  }

  function EncodeAll(kvs: seq<Kv>): seq<Byte> {
    if kvs == [] then [] else Encode(kvs[0]) + EncodeAll(kvs[1..])
  }

  /** Length prefix, elements, terminator. */
  function Frame(elements: seq<Byte>): seq<Byte> {
    ToLe(|elements| + 5, 4) + elements + [0]
  }

  lemma {:induction false} FrameIsFramed(elements: seq<Byte>)
    requires |elements| + 5 <= MAX_SIZE
    ensures Framed(Frame(elements)) && |Frame(elements)| == |elements| + 5
  {
    LeToLe4(|elements| + 5);
    assert Frame(elements)[..4] == ToLe(|elements| + 5, 4);
  }

  lemma {:induction false} LeToLe4(v: nat)
    requires v <= 0x7fff_ffff
    ensures Le(ToLe(v, 4)) == v
  {
    assert Radix(4) == 0x1_0000_0000 by {
      assert Radix(2) == 0x1_0000;
    }
    LeToLe(v, 4);
  }

  // ---------------------------------------------------------------- decoding

  datatype Body = Body(payload: Payload, next: nat) | Beyond(target: int) | BadTag | Outside

  datatype Decoded =
    | Item(kv: Kv, next: nat)               // one element, and the position after it
    | Astray(key: seq<Byte>, target: int)   // returned like an element, but its length is negative, too
                                            // short for its type, or takes its value out of the buffer
    | End                                   // the terminator
    | BadType                               // unknown element type, reported as -1
    | Overrun                               // type, key or length outside the buffer (undefined in C)

  /** Position of the first NUL at or after `p`, or the end of the buffer. */
  function FindNul(b: seq<Byte>, p: nat): (r: nat)
    requires p <= |b|
    ensures p <= r <= |b| && (r < |b| ==> b[r] == 0)
    ensures forall i :: p <= i < r ==> b[i] != 0
    decreases |b| - p
  {
    if p == |b| || b[p] == 0 then p else FindNul(b, p + 1)
  }

  function Signed32(x: nat): int {
    if x < 0x8000_0000 then x else x - TWO32
  }

  /** The length prefix of a string, binary or document, a signed number that nothing checks. */
  function Length(b: seq<Byte>, p: nat): int
    requires p + 4 <= |b|
  {
    Signed32(Le(b[p..p + 4]))
  }

  function TextOf(tag: Byte, text: seq<Byte>): Payload {
    if tag == 0x02 then Text(text) else if tag == 0x0d then Js(text) else Symbol(text)
  }

  function DecodeText(tag: Byte, b: seq<Byte>, p: nat): Body {
    if p + 4 > |b| then Outside else
    var n := Length(b, p);
    if 1 <= n && p + 4 + n <= |b| then Body(TextOf(tag, b[p + 4..p + 4 + n - 1]), p + 4 + n) else Beyond(p + 4 + n)
  }

  function DecodeDocument(tag: Byte, b: seq<Byte>, p: nat): Body {
    if p + 4 > |b| then Outside else
    var n := Length(b, p);
    if 0 <= n && p + n <= |b| then
      Body(if tag == 0x03 then Document(b[p..p + n]) else Array(b[p..p + n]), p + n)
    else Beyond(p + n)
  }

  function DecodeBinary(b: seq<Byte>, p: nat): Body {
    if p + 5 > |b| then Outside else
    var n := Length(b, p);
    if 0 <= n && p + 5 + n <= |b| then Body(Binary(b[p + 4], b[p + 5..p + 5 + n]), p + 5 + n) else Beyond(p + 5 + n)
  }

  function DecodeDbPointer(b: seq<Byte>, p: nat): Body {
    if p + 4 > |b| then Outside else
    var n := Length(b, p);
    if 1 <= n && p + 4 + n + 12 <= |b| then
      Body(DbPointer(b[p + 4..p + 4 + n - 1], b[p + 4 + n..p + 4 + n + 12]), p + 4 + n + 12)
    else Beyond(p + 4 + n + 12)
  }

  /** Width of the payloads that have no length prefix. */
  function Width(tag: Byte): int {
    match tag
    case 0x01 => 8 case 0x09 => 8 case 0x11 => 8 case 0x12 => 8
    case 0x07 => 12 case 0x08 => 1 case 0x10 => 4
    case 0x06 => 0 case 0x0a => 0 case 0xff => 0 case 0x7f => 0
    case _ => -1
  }

  function FixedOf(tag: Byte, raw: seq<Byte>): Payload {
    match tag
    case 0x01 => Double(raw)
    case 0x09 => DateTime(raw)
    case 0x11 => Timestamp(raw)
    case 0x12 => Int64(raw)
    case 0x07 => ObjectId(raw)
    case 0x08 => Boolean(raw != [0])
    case 0x10 => Int32(raw)
    case 0x06 => Undefined
    case 0x0a => Null
    case 0xff => MinKey
    case _ => MaxKey
  }

  function DecodeFixed(tag: Byte, b: seq<Byte>, p: nat): Body {
    var n := Width(tag);
    if n < 0 then BadTag else if p + n <= |b| then Body(FixedOf(tag, b[p..p + n]), p + n) else Beyond(p + n)
  }

  function DecodePayload(tag: Byte, b: seq<Byte>, p: nat): (r: Body) {
    if tag == 0x02 || tag == 0x0d || tag == 0x0e then DecodeText(tag, b, p)
    else if tag == 0x03 || tag == 0x04 then DecodeDocument(tag, b, p)
    else if tag == 0x05 then DecodeBinary(b, p)
    else if tag == 0x0c then DecodeDbPointer(b, p)
    else DecodeFixed(tag, b, p)
  }

  /** bson_deserialize at position `p` with `size` bytes of the document left. */
  function Decode(b: seq<Byte>, p: nat, size: nat): (r: Decoded) {
    if size < 2 then End
    else if p >= |b| then Overrun
    else
      var z := FindNul(b, p + 1);
      if z == |b| then Overrun else
      match DecodePayload(b[p], b, z + 1)
      case Body(payload, next) => Item(Kv(b[p + 1..z], payload), next)
      case Beyond(target) => Astray(b[p + 1..z], target)
      case BadTag => BadType
      case Outside => Overrun
  }

  /** Decoding an element moves forward and stays inside the buffer. */
  lemma DecodeMoves(b: seq<Byte>, p: nat, size: nat)
    ensures Decode(b, p, size).Item? ==> p + 1 < Decode(b, p, size).next <= |b|
  {
    hide FindNul;
  }

  /** By how much a call moves the position, and takes off the size; negative for some lengths. */
  function Taken(b: seq<Byte>, p: nat, size: nat): int {
    match Decode(b, p, size)
    case Item(_, next) => next - p
    case Astray(_, target) => target - p
    case End => Min(size, 1)
    case BadType => FindNul(b, p + 1) + 1 - p
    case Overrun => 0
  }

  /** The first `n` decodes of a document, from `p` on, leave the position inside it. */
  predicate Contained(b: seq<Byte>, p: nat, n: nat)
    requires p <= |b|
    decreases n
  {
    n == 0 ||
    (DecodeMoves(b, p, |b| - p);
     match Decode(b, p, |b| - p)
     case Overrun => false
     case Item(_, next) => Contained(b, next, n - 1)
     case Astray(_, target) => 0 <= target <= |b| && Contained(b, target, n - 1)
     case End => p + 1 == |b| ==> b[p] == 0
     case BadType => true)
  }

  /** Decode every element until the end; None if any step fails to reach it. */
  function DecodeAll(b: seq<Byte>, p: nat, size: nat): Option<seq<Kv>>
    decreases size
  {
    match Decode(b, p, size)
    case End => if size == 1 && p < |b| && b[p] == 0 then Some([]) else None
    case BadType => None
    case Overrun => None
    case Astray(_, _) => None
    case Item(kv, next) =>
      if p < next && next - p <= size then
        match DecodeAll(b, next, size - (next - p))
        case Some(rest) => Some([kv] + rest)
        case None => None
      else None
  }

  // ---------------------------------------------------------------- documents in larger buffers

  lemma FindNulPrefix(a: seq<Byte>, b: seq<Byte>, p: nat)
    requires a <= b && p <= |a| && FindNul(a, p) < |a|
    ensures FindNul(b, p) == FindNul(a, p)
  {
  }

  lemma LengthPrefix(a: seq<Byte>, b: seq<Byte>, p: nat)
    requires a <= b && p + 4 <= |a|
    ensures Length(b, p) == Length(a, p)
  {
    assert a[p..p + 4] == b[p..p + 4];
  }

  /** A value that is read from inside `a` is read the same from a longer buffer. */
  ghost predicate Inside(body: Body, end: nat) {
    !body.Outside? && (body.Beyond? ==> body.target <= end)
  }

  lemma {:induction false} TextPrefix(tag: Byte, a: seq<Byte>, b: seq<Byte>, p: nat)
    requires a <= b && Inside(DecodeText(tag, a, p), |a|)
    ensures DecodeText(tag, b, p) == DecodeText(tag, a, p)
  {
    LengthPrefix(a, b, p);
    hide Length, TextOf;
    var n := Length(a, p);
    if DecodeText(tag, a, p).Body? {
      assert a[p + 4..p + 4 + n - 1] == b[p + 4..p + 4 + n - 1];
    }
  }

  lemma {:induction false} DocumentPrefix(tag: Byte, a: seq<Byte>, b: seq<Byte>, p: nat)
    requires a <= b && Inside(DecodeDocument(tag, a, p), |a|)
    ensures DecodeDocument(tag, b, p) == DecodeDocument(tag, a, p)
  {
    LengthPrefix(a, b, p);
    hide Length;
    var n := Length(a, p);
    if DecodeDocument(tag, a, p).Body? {
      assert a[p..p + n] == b[p..p + n];
    }
  }

  lemma {:induction false} BinaryPrefix(a: seq<Byte>, b: seq<Byte>, p: nat)
    requires a <= b && Inside(DecodeBinary(a, p), |a|)
    ensures DecodeBinary(b, p) == DecodeBinary(a, p)
  {
    LengthPrefix(a, b, p);
    hide Length;
    var n := Length(a, p);
    if DecodeBinary(a, p).Body? {
      assert a[p + 5..p + 5 + n] == b[p + 5..p + 5 + n];
    }
  }

  lemma {:induction false} DbPointerPrefix(a: seq<Byte>, b: seq<Byte>, p: nat)
    requires a <= b && Inside(DecodeDbPointer(a, p), |a|)
    ensures DecodeDbPointer(b, p) == DecodeDbPointer(a, p)
  {
    LengthPrefix(a, b, p);
    hide Length;
    var n := Length(a, p);
    if DecodeDbPointer(a, p).Body? {
      assert a[p + 4..p + 4 + n - 1] == b[p + 4..p + 4 + n - 1];
      assert a[p + 4 + n..p + 4 + n + 12] == b[p + 4 + n..p + 4 + n + 12];
    }
  }

  lemma {:induction false} FixedPrefix(tag: Byte, a: seq<Byte>, b: seq<Byte>, p: nat)
    requires a <= b && Inside(DecodeFixed(tag, a, p), |a|)
    ensures DecodeFixed(tag, b, p) == DecodeFixed(tag, a, p)
  {
    hide Width, FixedOf;
    if DecodeFixed(tag, a, p).Body? {
      assert a[p..p + Width(tag)] == b[p..p + Width(tag)];
    }
  }

  lemma {:induction false} PayloadPrefix(tag: Byte, a: seq<Byte>, b: seq<Byte>, p: nat)
    requires a <= b && Inside(DecodePayload(tag, a, p), |a|)
    ensures DecodePayload(tag, b, p) == DecodePayload(tag, a, p)
  {
    hide DecodeText, DecodeDocument, DecodeBinary, DecodeDbPointer, DecodeFixed;
    if tag == 0x02 || tag == 0x0d || tag == 0x0e {
      TextPrefix(tag, a, b, p);
    } else if tag == 0x03 || tag == 0x04 {
      DocumentPrefix(tag, a, b, p);
    } else if tag == 0x05 {
      BinaryPrefix(a, b, p);
    } else if tag == 0x0c {
      DbPointerPrefix(a, b, p);
    } else {
      FixedPrefix(tag, a, b, p);
    }
  }

  /** A decode that stays inside a document is the same in a buffer that holds more behind it. */
  lemma {:induction false} DecodePrefix(a: seq<Byte>, b: seq<Byte>, p: nat, size: nat)
    requires a <= b && Decode(a, p, size) != Overrun
    requires Decode(a, p, size).Astray? ==> Decode(a, p, size).target <= |a|
    ensures Decode(b, p, size) == Decode(a, p, size)
  {
    hide DecodePayload;
    if size >= 2 {
      FindNulPrefix(a, b, p + 1);
      var z := FindNul(a, p + 1);
      PayloadPrefix(a[p], a, b, z + 1);
      assert a[p + 1..z] == b[p + 1..z];
    }
  }

  /** A document of five body bytes in a buffer with room behind it: its one element ends ten bytes
      on, outside the document. */
  lemma LeavesDocument(b: seq<Byte>)
    requires |b| >= 10 && b[0] == 0x01 && b[1] == 0 && b[4] == 0
    ensures Framed([9, 0, 0, 0] + b[..5])
    ensures Decode(b, 0, 5).Item? && Decode(b, 0, 5).next == 10
    ensures !Contained(b[..5], 0, 1)
  {
    assert FindNul(b, 1) == 1 && FindNul(b[..5], 1) == 1;
    var d := [9, 0, 0, 0] + b[..5];
    assert d[..4] == [9, 0, 0, 0] && Le([9, 0, 0, 0]) == 9 by {
      assert [9, 0, 0, 0][1..] == [0, 0, 0] && [0, 0, 0][1..] == [0, 0] && [0, 0][1..] == [0] && [0][1..] == [];
    }
  }

  /** A document of seven body bytes with an embedded document of length -2^31: the position goes far
      in front of the buffer. */
  lemma {:induction false} GoesBack(b: seq<Byte>)
    requires |b| >= 7 && b[..7] == [0x03, 0, 0, 0, 0, 0x80, 0]
    ensures Framed([11, 0, 0, 0] + b[..7])
    ensures Decode(b, 0, 7) == Astray([], 2 - 0x8000_0000)
    ensures !Contained(b[..7], 0, 1)
  {
    var body := b[..7];
    NegativeLength(b);
    assert body[..7] == body;
    NegativeLength(body);
    assert !Contained(body, 0, 1) by {
      hide Decode;
      assert |body| - 0 == 7;
    }
    var d := [11, 0, 0, 0] + body;
    assert d[..4] == [11, 0, 0, 0] && Le([11, 0, 0, 0]) == 11 by {
      assert [11, 0, 0, 0][1..] == [0, 0, 0] && [0, 0, 0][1..] == [0, 0] && [0, 0][1..] == [0] && [0][1..] == [];
    }
  }

  lemma {:induction false} NegativeLength(b: seq<Byte>)
    requires |b| >= 7 && b[..7] == [0x03, 0, 0, 0, 0, 0x80, 0]
    ensures Decode(b, 0, 7) == Astray([], 2 - 0x8000_0000)
  {
    assert forall i :: 0 <= i < 7 ==> b[i] == b[..7][i];
    assert FindNul(b, 1) == 1 && b[1..1] == [];
    assert b[2..6] == [0, 0, 0, 0x80];
    assert Le([0, 0, 0, 0x80]) == 0x8000_0000 by {
      assert [0, 0, 0, 0x80][1..] == [0, 0, 0x80] && [0, 0, 0x80][1..] == [0, 0x80];
      assert [0, 0x80][1..] == [0x80] && [0x80][1..] == [];
    }
  }

  // ---------------------------------------------------------------- round trip

  /** A length prefix `n` in front of `rest` is what Length reads. */
  lemma {:induction false} LengthAt(b: seq<Byte>, p: nat, n: nat, rest: seq<Byte>)
    requires n <= 0x7fff_ffff && At(b, p, ToLe(n, 4) + rest)
    ensures p + 4 <= |b| && Length(b, p) == n && At(b, p + 4, rest)
  {
    LeToLe4(n);
    AtParts(b, p, ToLe(n, 4), rest);
  }

  lemma {:induction false} TextAt(b: seq<Byte>, p: nat, s: seq<Byte>)
    requires |s| < MAX_SIZE && At(b, p, EncodeText(s))
    ensures p + 4 + |s| + 1 <= |b| && Length(b, p) == |s| + 1 && b[p + 4..p + 4 + |s|] == s
    ensures forall tag :: DecodeText(tag, b, p) == Body(TextOf(tag, s), p + |EncodeText(s)|)
  {
    assert EncodeText(s) == ToLe(|s| + 1, 4) + (s + [0]);
    LengthAt(b, p, |s| + 1, s + [0]);
    AtParts(b, p + 4, s, [0]);
  }

  lemma {:induction false} DocumentAt(b: seq<Byte>, p: nat, d: seq<Byte>)
    requires |d| <= MAX_SIZE && Framed(d) && At(b, p, d)
    ensures forall tag ::
              DecodeDocument(tag, b, p) == Body(if tag == 0x03 then Document(d) else Array(d), p + |d|)
  {
    assert d == d[..4] + d[4..];
    AtParts(b, p, d[..4], d[4..]);
  }

  lemma {:induction false} BinaryAt(b: seq<Byte>, p: nat, subtype: Byte, data: seq<Byte>)
    requires |data| <= MAX_SIZE && At(b, p, EncodePayload(Binary(subtype, data)))
    ensures DecodeBinary(b, p) == Body(Binary(subtype, data), p + 5 + |data|)
  {
    assert EncodePayload(Binary(subtype, data)) == ToLe(|data|, 4) + ([subtype] + data);
    LengthAt(b, p, |data|, [subtype] + data);
    AtParts(b, p + 4, [subtype], data);
    assert b[p + 4..p + 5][0] == subtype;
  }

  lemma {:induction false} DbPointerAt(b: seq<Byte>, p: nat, text: seq<Byte>, raw: seq<Byte>)
    requires |text| < MAX_SIZE && |raw| == 12 && At(b, p, EncodeText(text) + raw)
    ensures DecodeDbPointer(b, p) == Body(DbPointer(text, raw), p + 4 + |text| + 1 + 12)
  {
    AtParts(b, p, EncodeText(text), raw);
    TextAt(b, p, text);
  }

  lemma {:induction false} FixedAt(payload: Payload, b: seq<Byte>, p: nat)
    requires ValidPayload(payload) && Width(Tag(payload)) >= 0
    requires At(b, p, EncodePayload(payload))
    ensures DecodeFixed(Tag(payload), b, p) == Body(payload, p + |EncodePayload(payload)|)
  {
    assert |EncodePayload(payload)| == Width(Tag(payload));
  }

  /** Wherever the body of a valid payload stands in a buffer, the decoder returns it. */
  lemma {:induction false} PayloadRoundTrip(payload: Payload, b: seq<Byte>, p: nat)
    requires ValidPayload(payload) && |EncodePayload(payload)| <= MAX_SIZE
    requires At(b, p, EncodePayload(payload))
    ensures DecodePayload(Tag(payload), b, p) == Body(payload, p + |EncodePayload(payload)|)
  {
    match payload
    case Text(text) => TextAt(b, p, text);
    case Js(text) => TextAt(b, p, text);
    case Symbol(text) => TextAt(b, p, text);
    case Document(doc) => DocumentAt(b, p, doc);
    case Array(doc) => DocumentAt(b, p, doc);
    case Binary(subtype, data) => BinaryAt(b, p, subtype, data);
    case DbPointer(text, raw) => DbPointerAt(b, p, text, raw);
    case _ => FixedAt(payload, b, p);
  }

  lemma {:induction false} FindNulAt(b: seq<Byte>, p: nat, key: seq<Byte>)
    requires 0 !in key && At(b, p, key + [0])
    ensures FindNul(b, p) == p + |key|
  {
    AtParts(b, p, key, [0]);
    assert b[p + |key|] == 0;
    forall i | p <= i < p + |key| ensures b[i] != 0 {
      assert b[i] == key[i - p];
    }
  }

  lemma {:induction false} ElementAt(kv: Kv, b: seq<Byte>, p: nat)
    requires At(b, p, Encode(kv))
    ensures |Encode(kv)| == 2 + |kv.key| + |EncodePayload(kv.payload)|
    ensures p < |b| && b[p] == Tag(kv.payload) && At(b, p + 1, kv.key + [0])
    ensures At(b, p + 1 + |kv.key| + 1, EncodePayload(kv.payload))
  {
    var body := EncodePayload(kv.payload);
    assert Encode(kv) == [Tag(kv.payload)] + ((kv.key + [0]) + body);
    AtParts(b, p, [Tag(kv.payload)], (kv.key + [0]) + body);
    AtParts(b, p + 1, kv.key + [0], body);
    assert b[p..p + 1] == [Tag(kv.payload)];
  }

  /** One element decodes to itself wherever it stands, and the position moves past it. */
  lemma {:induction false} ElementRoundTrip(kv: Kv, b: seq<Byte>, p: nat, size: nat)
    requires Valid(kv) && |Encode(kv)| <= MAX_SIZE && At(b, p, Encode(kv)) && 2 <= size
    ensures Decode(b, p, size) == Item(kv, p + |Encode(kv)|)
  {
    hide Encode, EncodePayload, DecodePayload, ValidPayload, Tag, FindNul;
    ElementAt(kv, b, p);
    var z := p + 1 + |kv.key|;
    assert FindNul(b, p + 1) == z by {
      FindNulAt(b, p + 1, kv.key);
    }
    assert b[p + 1..z] == kv.key by {
      AtParts(b, p + 1, kv.key, [0]);
    }
    PayloadRoundTrip(kv.payload, b, z + 1);
  }

  lemma DecodeAllStep(b: seq<Byte>, p: nat, size: nat, kv: Kv, next: nat, rest: seq<Kv>)
    requires Decode(b, p, size) == Item(kv, next) && p < next <= p + size
    requires DecodeAll(b, next, size - (next - p)) == Some(rest)
    ensures DecodeAll(b, p, size) == Some([kv] + rest)
  {
  }

  lemma {:induction false} EncodeAllAt(kvs: seq<Kv>, b: seq<Byte>, p: nat)
    requires kvs != [] && At(b, p, EncodeAll(kvs) + [0])
    ensures At(b, p, Encode(kvs[0])) && At(b, p + |Encode(kvs[0])|, EncodeAll(kvs[1..]) + [0])
    ensures |EncodeAll(kvs)| == |Encode(kvs[0])| + |EncodeAll(kvs[1..])|
  {
    hide Encode;
    var first, rest := Encode(kvs[0]), EncodeAll(kvs[1..]);
    assert EncodeAll(kvs) + [0] == first + (rest + [0]);
    AtParts(b, p, first, rest + [0]);
  }

  lemma NoElements(b: seq<Byte>, p: nat)
    requires At(b, p, EncodeAll([]) + [0])
    ensures EncodeAll([]) == [] && DecodeAll(b, p, 1) == Some([])
  {
  }

  lemma {:induction false} ElementsRoundTrip(kvs: seq<Kv>, b: seq<Byte>, p: nat)
    requires forall i :: 0 <= i < |kvs| ==> Valid(kvs[i])
    requires |EncodeAll(kvs)| <= MAX_SIZE && At(b, p, EncodeAll(kvs) + [0])
    ensures DecodeAll(b, p, |EncodeAll(kvs)| + 1) == Some(kvs)
  {
    hide *;
    if kvs == [] {
      NoElements(b, p);
    } else {
      var n, size := |Encode(kvs[0])|, |EncodeAll(kvs)| + 1;
      EncodeAllAt(kvs, b, p);
      ElementsRoundTrip(kvs[1..], b, p + n);
      ElementRoundTrip(kvs[0], b, p, size);
      DecodeAllStep(b, p, size, kvs[0], p + n, kvs[1..]);
      assert kvs == [kvs[0]] + kvs[1..];
    }
  }

  lemma {:induction false} EncodedIsContained(kvs: seq<Kv>, b: seq<Byte>, p: nat, n: nat)
    requires forall i :: 0 <= i < |kvs| ==> Valid(kvs[i])
    requires |EncodeAll(kvs)| <= MAX_SIZE && At(b, p, EncodeAll(kvs) + [0]) && p + |EncodeAll(kvs)| + 1 == |b|
    ensures Contained(b, p, n)
    decreases n
  {
    hide Encode, Decode, Valid;
    if n > 0 {
      if kvs == [] {
        NoElements(b, p);
      } else {
        EncodeAllAt(kvs, b, p);
        ElementRoundTrip(kvs[0], b, p, |b| - p);
        EncodedIsContained(kvs[1..], b, p + |Encode(kvs[0])|, n - 1);
      }
    }
  }

  /** Serialize, finalize, make readable, deserialize: the same elements come back, and the
      terminator is met with exactly one byte left. */
  lemma {:induction false} DocumentRoundTrip(kvs: seq<Kv>)
    requires forall i :: 0 <= i < |kvs| ==> Valid(kvs[i])
    requires |EncodeAll(kvs)| + 5 <= MAX_SIZE
    ensures var d := Frame(EncodeAll(kvs)); Framed(d) && DecodeAll(d, 4, |d| - 4) == Some(kvs)
  {
    var e := EncodeAll(kvs);
    var d := Frame(e);
    FrameIsFramed(e);
    assert d == ToLe(|e| + 5, 4) + (e + [0]);
    assert d[4..4 + |e| + 1] == e + [0];
    hide Encode, EncodeAll, DecodeAll, Valid;
    ElementsRoundTrip(kvs, d, 4);
  }

  // ---------------------------------------------------------------- nesting

  /** A document as a tree: sub-documents and arrays hold fields instead of bytes. */
  datatype Value =
    | Leaf(payload: Payload)
    | SubDocument(fields: seq<Field>)
    | SubArray(fields: seq<Field>)

  datatype Field = Field(key: seq<Byte>, value: Value)

  predicate ValidField(f: Field) {
    && 0 !in f.key
    && match f.value
       case Leaf(p) => ValidPayload(p) && !p.Document? && !p.Array?
       case SubDocument(fields) => forall i :: 0 <= i < |fields| ==> ValidField(fields[i])
       case SubArray(fields) => forall i :: 0 <= i < |fields| ==> ValidField(fields[i])
  }

  /** The element a field is serialized as, its sub-documents serialized first. */
  function Flatten(f: Field): Kv
    decreases f, 0
  {
    Kv(f.key,
       match f.value
       case Leaf(p) => p
       case SubDocument(fields) => Document(Frame(EncodeAll(FlattenAll(fields))))
       case SubArray(fields) => Array(Frame(EncodeAll(FlattenAll(fields)))))
  }

  function FlattenAll(fs: seq<Field>): (r: seq<Kv>)
    ensures |r| == |fs|
    decreases fs, 1
  {
    if fs == [] then [] else [Flatten(fs[0])] + FlattenAll(fs[1..])
  }

  /** bson_make_readable and bson_deserialize, applied again to every sub-document. */
  function ReadTree(d: seq<Byte>): Option<seq<Field>>
    decreases |d|, 1, 0
  {
    if !Framed(d) then None else
    match DecodeAll(d, 4, |d| - 4)
    case None => None
    case Some(kvs) => ReadFields(kvs, |d|)
  }

  /** Rebuild the fields of a document of `size` bytes from its elements. */
  function ReadFields(kvs: seq<Kv>, size: nat): Option<seq<Field>>
    decreases size, 0, |kvs|
  {
    if kvs == [] then Some([]) else
    match (ReadValue(kvs[0].payload, size), ReadFields(kvs[1..], size))
    case (Some(v), Some(rest)) => Some([Field(kvs[0].key, v)] + rest)
    case _ => None
  }

  function ReadValue(p: Payload, size: nat): Option<Value>
    decreases size, 0, 0
  {
    match p
    case Document(doc) =>
      if |doc| >= size then None else
      (match ReadTree(doc) case Some(fields) => Some(SubDocument(fields)) case None => None)
    case Array(doc) =>
      if |doc| >= size then None else
      (match ReadTree(doc) case Some(fields) => Some(SubArray(fields)) case None => None)
    case _ => Some(Leaf(p))
  }

  lemma {:induction false} EncodeAllBounds(kvs: seq<Kv>, i: nat)
    requires i < |kvs|
    ensures |Encode(kvs[i])| <= |EncodeAll(kvs)|
  {
    if i > 0 {
      EncodeAllBounds(kvs[1..], i - 1);
    }
  }

  lemma {:induction false} FlattenAllAt(fs: seq<Field>, i: nat)
    requires i < |fs|
    ensures FlattenAll(fs)[i] == Flatten(fs[i])
  {
    if i > 0 {
      FlattenAllAt(fs[1..], i - 1);
    }
  }

  /** Fields flatten to elements the encoder accepts. */
  lemma {:induction false} FlattenIsValid(f: Field)
    requires ValidField(f) && |Encode(Flatten(f))| <= MAX_SIZE
    ensures Valid(Flatten(f))
  {
    match f.value
    case Leaf(p) =>
    case SubDocument(fields) => FrameIsFramed(EncodeAll(FlattenAll(fields)));
    case SubArray(fields) => FrameIsFramed(EncodeAll(FlattenAll(fields)));
  }

  lemma {:induction false} FlattenAllIsValid(fs: seq<Field>)
    requires forall i :: 0 <= i < |fs| ==> ValidField(fs[i])
    requires |EncodeAll(FlattenAll(fs))| <= MAX_SIZE
    ensures forall i :: 0 <= i < |fs| ==> Valid(FlattenAll(fs)[i])
  {
    forall i | 0 <= i < |fs| ensures Valid(FlattenAll(fs)[i]) {
      FlattenAllAt(fs, i);
      EncodeAllBounds(FlattenAll(fs), i);
      FlattenIsValid(fs[i]);
    }
  }

  /** Nested to any depth, a document read back is the document written. */
  lemma {:induction false} TreeRoundTrip(fs: seq<Field>)
    requires forall i :: 0 <= i < |fs| ==> ValidField(fs[i])
    requires |EncodeAll(FlattenAll(fs))| + 5 <= MAX_SIZE
    ensures ReadTree(Frame(EncodeAll(FlattenAll(fs)))) == Some(fs)
    decreases fs, 2
  {
    hide Encode, EncodeAll, FlattenAll, DecodeAll, ValidField, ReadFields, Frame, Framed, Valid;
    var kvs := FlattenAll(fs);
    FlattenAllIsValid(fs);
    DocumentRoundTrip(kvs);
    FrameIsFramed(EncodeAll(kvs));
    FieldsRoundTrip(fs, |EncodeAll(kvs)| + 5);
  }

  lemma {:induction false} FieldsRoundTrip(fs: seq<Field>, size: nat)
    requires forall i :: 0 <= i < |fs| ==> ValidField(fs[i])
    requires |EncodeAll(FlattenAll(fs))| + 5 <= size <= MAX_SIZE
    ensures ReadFields(FlattenAll(fs), size) == Some(fs)
    decreases fs, 1
  {
    hide Encode, Flatten, ReadValue, ValidField;
    if fs == [] {
    } else {
      var kvs := FlattenAll(fs);
      assert kvs[0] == Flatten(fs[0]) && kvs[1..] == FlattenAll(fs[1..]);
      ValueRoundTrip(fs[0], size);
      FieldsRoundTrip(fs[1..], size);
      assert fs == [Field(fs[0].key, fs[0].value)] + fs[1..];
    }
  }

  lemma {:induction false} ValueRoundTrip(f: Field, size: nat)
    requires ValidField(f) && |Encode(Flatten(f))| < size <= MAX_SIZE
    ensures Flatten(f).key == f.key && ReadValue(Flatten(f).payload, size) == Some(f.value)
    decreases f, 0
  {
    match f.value
    case Leaf(p) =>
    case SubDocument(fields) => TreeRoundTrip(fields);
    case SubArray(fields) => TreeRoundTrip(fields);
  }
}
