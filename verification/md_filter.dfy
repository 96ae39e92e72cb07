/**
 The metadata filter's trip through the index file (bitarray_serialize, qemu_load_md_filter):
 rounded down to a power of two, serialized as bytes, and reloaded with the byte count taken
 for a bit count. Every sector of the disk keeps its answer all the same.
 */
module MdFilter {
  import opened Bytes
  import opened BsonSpec
  import opened BitArrays
  import Bson
  import RedisPipeline

  function Ascii(s: string): (r: seq<Byte>)
    requires forall i :: 0 <= i < |s| ==> 0 < s[i] as int < 128
    ensures |r| == |s| && 0 !in r
  {
    seq(|s|, i requires 0 <= i < |s| => s[i] as int)
  }

  // ---------------------------------------------------------------- saving

  /** What bitarray_serialize writes; the subtype is left uninitialised by the source. */
  function FilterRecord(bytes: seq<Byte>, subtype: Byte): seq<Kv> {
    [Kv(Ascii("type"), Text(Ascii("metadata_filter"))), Kv(Ascii("bitarray"), Binary(subtype, bytes))]
  }

  lemma {:induction false} EncodePair(a: Kv, b: Kv)
    ensures EncodeAll([a, b]) == Encode(a) + Encode(b)
  {
    assert [a, b][1..] == [b] && [b][1..] == [];
    assert EncodeAll([b]) == Encode(b) + [];
  }

  lemma {:induction false} RecordSize(bytes: seq<Byte>, subtype: Byte)
    requires |bytes| <= MAX_SIZE / 2
    ensures var r := FilterRecord(bytes, subtype);
            && EncodeAll(r) == Encode(r[0]) + Encode(r[1])
            && |Encode(r[0])| + |Encode(r[1])| + 5 <= MAX_SIZE
  {
    var r := FilterRecord(bytes, subtype);
    EncodePair(r[0], r[1]);
    assert |Encode(r[0])| == 1 + 4 + 1 + 4 + 15 + 1;
    assert |Encode(r[1])| == 1 + 8 + 1 + 4 + 1 + |bytes|;
  }

  /** bitarray_serialize: the whole bytes of the array, as one finalized document. */
  method Serialize(bits: BitArray) returns (document: seq<Byte>, subtype: Byte)
    requires bits.Valid() && bits.len / 8 <= MAX_SIZE / 2
    ensures document == Frame(EncodeAll(FilterRecord(bits.data[..bits.len / 8], subtype)))
  {
    subtype := *;
    var record := FilterRecord(bits.data[..bits.len / 8], subtype);
    RecordSize(bits.data[..bits.len / 8], subtype);
    var info := Bson.WriteDocument(record);
    document := info.buffer[..info.position];
  }

  // ---------------------------------------------------------------- loading

  /** An element from the place its `data` pointer is left at to the element's end. A value without
      bytes of its own, and a document, leave the pointer at the key. */
  function FromData(kv: Kv): seq<Byte> {
    match kv.payload
    case Text(text) => text + [0]
    case Js(text) => text + [0]
    case Symbol(text) => text + [0]
    case DbPointer(text, raw) => text + [0] + raw
    case Binary(_, data) => data
    case Undefined => kv.key + [0]
    case Null => kv.key + [0]
    case MinKey => kv.key + [0]
    case MaxKey => kv.key + [0]
    case Document(doc) => kv.key + [0] + doc
    case Array(doc) => kv.key + [0] + doc
    case _ => EncodePayload(kv.payload)
  }

  lemma {:induction false} FromDataEnds(kv: Kv)
    ensures |FromData(kv)| <= |Encode(kv)| && Encode(kv)[|Encode(kv)| - |FromData(kv)|..] == FromData(kv)
  {
    hide ToLe;
    var tag := [Tag(kv.payload)];
    var head := tag + kv.key + [0];
    match kv.payload
    case Text(text) => TextEnds(kv, head, text, []);
    case Js(text) => TextEnds(kv, head, text, []);
    case Symbol(text) => TextEnds(kv, head, text, []);
    case DbPointer(text, raw) => TextEnds(kv, head, text, raw);
    case Binary(subtype, data) => Ends(Encode(kv), head + ToLe(|data|, 4) + [subtype], FromData(kv));
    case Undefined => Ends(Encode(kv), tag, FromData(kv));
    case Null => Ends(Encode(kv), tag, FromData(kv));
    case MinKey => Ends(Encode(kv), tag, FromData(kv));
    case MaxKey => Ends(Encode(kv), tag, FromData(kv));
    case Document(_) => Ends(Encode(kv), tag, FromData(kv));
    case Array(_) => Ends(Encode(kv), tag, FromData(kv));
    case _ => Ends(Encode(kv), head, FromData(kv));
  }

  lemma {:induction false} TextEnds(kv: Kv, head: seq<Byte>, text: seq<Byte>, raw: seq<Byte>)
    requires Encode(kv) == head + (EncodeText(text) + raw) && FromData(kv) == text + [0] + raw
    ensures |FromData(kv)| <= |Encode(kv)| && Encode(kv)[|Encode(kv)| - |FromData(kv)|..] == FromData(kv)
  {
    hide Encode, FromData, ToLe;
    assert Encode(kv) == (head + ToLe(|text| + 1, 4)) + FromData(kv);
    Ends(Encode(kv), head + ToLe(|text| + 1, 4), FromData(kv));
  }

  lemma {:induction false} Ends(s: seq<Byte>, a: seq<Byte>, b: seq<Byte>)
    requires s == a + b
    ensures |b| <= |s| && s[|s| - |b|..] == b
  {
    assert |s| - |b| == |a|;
  }

  /** The first element's `data` read as a C string: whatever its type, the bytes up to the first
      NUL, which may stand in a later element. */
  function RecordName(kvs: seq<Kv>): seq<Byte>
    requires kvs != []
  {
    var s := FromData(kvs[0]) + (EncodeAll(kvs[1..]) + [0]);
    s[..FindNul(s, 0)]
  }

  lemma {:induction false} FindNulShift(b: seq<Byte>, p: nat, s: seq<Byte>)
    requires At(b, p, s) && s != [] && s[|s| - 1] == 0
    ensures FindNul(s, 0) < |s| && FindNul(b, p) == p + FindNul(s, 0)
  {
    var k, q := FindNul(s, 0), FindNul(b, p);
    assert b[p..p + |s|][k] == 0;
    assert q <= p + k;
    assert b[p..p + |s|][q - p] == 0;
  }

  lemma {:induction false} NameAt(kvs: seq<Kv>, b: seq<Byte>)
    requires kvs != [] && At(b, 0, EncodeAll(kvs) + [0])
    ensures |FromData(kvs[0])| <= |Encode(kvs[0])| <= |b|
    ensures var p := |Encode(kvs[0])| - |FromData(kvs[0])|; b[p..FindNul(b, p)] == RecordName(kvs)
  {
    hide Encode, EncodeAll, FromData, FindNul;
    EncodeAllAt(kvs, b, 0);
    FromDataEnds(kvs[0]);
    var first, tail := Encode(kvs[0]), EncodeAll(kvs[1..]) + [0];
    var p := |first| - |FromData(kvs[0])|;
    var s := FromData(kvs[0]) + tail;
    assert At(b, p, s) by {
      assert b[p..p + |s|] == b[..|first|][p..] + b[|first|..|first| + |tail|];
    }
    FindNulShift(b, p, s);
    assert b[p..p + |s|][..FindNul(s, 0)] == b[p..p + FindNul(s, 0)];
  }

  /** `data` and `size` of a decoded value. */
  function DataBytes(p: Payload): seq<Byte> {
    match p
    case Binary(_, data) => data
    case Text(text) => text
    case Js(text) => text
    case Symbol(text) => text
    case Double(raw) => raw
    case Int32(raw) => raw
    case Int64(raw) => raw
    case Boolean(flag) => [if flag then 1 else 0]
    case DbPointer(text, _) => text
    case _ => []
  }

  /** `size` of a decoded value: the fixed widths and the length prefixes, and zero for the types that
      leave it unset. */
  function SizeOf(p: Payload): nat {
    match p
    case Double(_) => 8
    case Int64(_) => 8
    case Int32(_) => 4
    case Boolean(_) => 1
    case Text(text) => |text|
    case Js(text) => |text|
    case Symbol(text) => |text|
    case DbPointer(text, _) => |text|
    case Binary(_, data) => |data|
    case _ => 0
  }

  /** They are the first `size` bytes at the data pointer. */
  lemma {:induction false} DataStartsThere(kv: Kv)
    requires ValidPayload(kv.payload)
    ensures |DataBytes(kv.payload)| == SizeOf(kv.payload) && DataBytes(kv.payload) <= FromData(kv)
  {
  }

  /** The filter bytes in an index: the first record named metadata_filter, provided every
      record before it has a type. */
  function FindFilter(docs: seq<seq<Kv>>): Option<seq<Byte>> {
    if docs == [] || docs[0] == [] || docs[0][0].key != Ascii("type") then None
    else if RecordName(docs[0]) == Ascii("metadata_filter") then
      if |docs[0]| >= 2 && docs[0][1].key == Ascii("bitarray") then Some(DataBytes(docs[0][1].payload)) else None
    else FindFilter(docs[1..])
  }

  ghost predicate ValidDocument(kvs: seq<Kv>) {
    && (forall i :: 0 <= i < |kvs| ==> BsonSpec.Valid(kvs[i]))
    && |EncodeAll(kvs)| + 5 <= MAX_SIZE
  }

  /** The index file that holds these records. */
  function IndexFile(docs: seq<seq<Kv>>): seq<Byte> {
    if docs == [] then [] else Frame(EncodeAll(docs[0])) + IndexFile(docs[1..])
  }

  lemma {:induction false} IndexFileHead(elements: seq<Byte>, rest: seq<Byte>)
    requires |elements| + 5 <= MAX_SIZE
    ensures Bson.NextDocument(Frame(elements) + rest) == Some(elements + [0])
    ensures (Frame(elements) + rest)[|elements| + 5..] == rest
  {
    var d := Frame(elements);
    FrameIsFramed(elements);
    assert (d + rest)[..4] == d[..4];
    assert (d + rest)[4..|d|] == elements + [0];
  }

  /** Where element `k` (0 or 1) of a document starts, not counting the length prefix. */
  function Start(kvs: seq<Kv>, k: nat): nat
    requires k <= 1 && k <= |kvs|
  {
    if k == 0 then 0 else |Encode(kvs[0])|
  }

  lemma {:induction false} ElementOfDocument(kvs: seq<Kv>, k: nat, b: seq<Byte>)
    requires k <= 1 && k < |kvs| && At(b, 0, EncodeAll(kvs) + [0])
    ensures At(b, Start(kvs, k), Encode(kvs[k]))
    ensures Start(kvs, k) + |Encode(kvs[k])| <= |EncodeAll(kvs)|
  {
    hide Encode;
    EncodeAllAt(kvs, b, 0);
    if k == 1 {
      EncodeAllAt(kvs[1..], b, |Encode(kvs[0])|);
    }
  }

  lemma {:induction false} EndOfDocument(kvs: seq<Kv>, k: nat, b: seq<Byte>)
    requires k <= 1 && k == |kvs| && At(b, 0, EncodeAll(kvs) + [0])
    ensures Start(kvs, k) == |EncodeAll(kvs)| < |b| && b[Start(kvs, k)] == 0
  {
    var n := |EncodeAll(kvs)|;
    assert b[0..n + 1][n] == 0;
    if k == 1 {
      assert kvs == [kvs[0]];
    }
  }

  /** One call of bson_deserialize on a buffer that holds element `k` of a document. */
  method NextElement(info: Bson.BsonInfo, ghost kvs: seq<Kv>, ghost k: nat) returns (r: Decoded)
    requires info.Valid() && ValidDocument(kvs) && k <= 1 && k <= |kvs|
    requires At(info.buffer[..], 0, EncodeAll(kvs) + [0])
    requires info.position == Start(kvs, k) && info.position + info.size == |EncodeAll(kvs)| + 1
    modifies info`size, info`position
    ensures info.Valid()
    ensures k < |kvs| ==> r.Item? && r.kv == kvs[k] && info.position == Start(kvs, k) + |Encode(kvs[k])|
    ensures k < |kvs| ==> info.position + info.size == |EncodeAll(kvs)| + 1
    ensures k == |kvs| ==> r.End?
  {
    hide Encode, EncodeAll, Decode;
    if k < |kvs| {
      ElementOfDocument(kvs, k, info.buffer[..]);
      ElementRoundTrip(kvs[k], info.buffer[..], info.position, info.size);
    } else {
      EndOfDocument(kvs, k, info.buffer[..]);
      Bson.DecodeEnd(info.buffer[..], info.position);
    }
    r := info.Deserialize();
  }

  /** The C string that the first element's `data` points at, the element just decoded. */
  method ReadName(info: Bson.BsonInfo, kv: Kv, ghost kvs: seq<Kv>) returns (name: seq<Byte>)
    requires kvs != [] && kv == kvs[0] && At(info.buffer[..], 0, EncodeAll(kvs) + [0])
    requires info.position == |Encode(kv)|
    ensures name == RecordName(kvs)
  {
    hide At, Encode, EncodeAll, FromData, RecordName, FindNul;
    NameAt(kvs, info.buffer[..]);
    var data := info.position - |FromData(kv)|;
    var nul := info.ScanNul(data);
    name := info.buffer[data..nul];
    assert info.buffer[..][data..nul] == name;
  }

  /** The first two elements of the record just read, decoded as qemu_load_md_filter does:
      `stop` when the scan ends here, with the filter bytes if this record has them. */
  method InspectRecord(info: Bson.BsonInfo, ghost kvs: seq<Kv>) returns (stop: bool, found: Option<seq<Byte>>)
    requires info.Valid() && ValidDocument(kvs)
    requires At(info.buffer[..], 0, EncodeAll(kvs) + [0])
    requires info.position == 0 && info.size == |EncodeAll(kvs)| + 1
    modifies info`size, info`position
    ensures info.Valid()
    ensures stop ==> forall rest :: FindFilter([kvs] + rest) == found
    ensures !stop ==> forall rest :: FindFilter([kvs] + rest) == FindFilter(rest)
  {
    hide At, ValidDocument, Encode, EncodeAll, RecordName, Ascii, DataBytes;
    assert forall rest: seq<seq<Kv>> :: ([kvs] + rest)[1..] == rest;
    stop, found := true, None;
    var r := NextElement(info, kvs, 0);
    if r.Item? && r.kv.key == Ascii("type") {
      var name := ReadName(info, r.kv, kvs);
      if name == Ascii("metadata_filter") {
        var r2 := NextElement(info, kvs, 1);
        if r2.Item? && r2.kv.key == Ascii("bitarray") {
          found := Some(DataBytes(r2.kv.payload));
        }
      } else {
        stop := false;
      }
    }
  }

  /** qemu_load_md_filter up to the rebuilding of the array: scan the index for the filter
      record. Records are abandoned half decoded and the buffer is reused for the next. */
  method ScanIndex(file: Bson.FileStream, ghost docs: seq<seq<Kv>>) returns (found: Option<seq<Byte>>)
    requires file.Valid() && file.Rest() == IndexFile(docs)
    requires forall i :: 0 <= i < |docs| ==> ValidDocument(docs[i])
    modifies file`offset
    ensures found == FindFilter(docs)
  {
    hide Encode, EncodeAll, Frame;
    found := None;
    var info := new Bson.BsonInfo();
    ghost var left := docs;
    while true
      invariant info.Valid() && file.Valid() && fresh(info) && fresh(info.buffer)
      invariant file.Rest() == IndexFile(left) && FindFilter(left) == FindFilter(docs)
      invariant forall i :: 0 <= i < |left| ==> ValidDocument(left[i])
      decreases |left|
    {
      if left != [] {
        IndexFileHead(EncodeAll(left[0]), IndexFile(left[1..]));
      }
      var code, _ := info.ReadDocument(file);
      if code != 1 {
        return;
      }
      assert At(info.buffer[..], 0, EncodeAll(left[0]) + [0]) by {
        assert info.buffer[..][0..info.size] == info.buffer[..info.size];
      }
      var stop, data := InspectRecord(info, left[0]);
      assert left == [left[0]] + left[1..];
      if stop {
        return data;
      }
      left := left[1..];
    }
  }

  /** qemu_load_md_filter: the array is rebuilt from the filter's bytes, their number taken as
      the number of bits. */
  method Load(file: Bson.FileStream, ghost docs: seq<seq<Kv>>) returns (bits: BitArray?)
    requires file.Valid() && file.Rest() == IndexFile(docs)
    requires forall i :: 0 <= i < |docs| ==> ValidDocument(docs[i])
    modifies file`offset
    ensures bits != null <==> FindFilter(docs).Some?
    ensures bits != null ==>
              var bytes := FindFilter(docs).value;
              && bits.Valid() && bits.len == Pow2(Log2(|bytes|))
              && var k := Min(|bytes| / 8, bits.data.Length); bits.data[..k] == bytes[..k]
  {
    var found := ScanIndex(file, docs);
    if found.Some? {
      bits := new BitArray.FromData(found.value, |found.value|);
    } else {
      bits := null;
    }
  }

  // ---------------------------------------------------------------- what survives

  const BLOCK: nat := 4096

  /** Number of bits in the crawler's filter for a disk of this many bytes. */
  function FilterBits(diskSize: nat): nat {
    Pow2(Log2(diskSize / BLOCK))
  }

  lemma {:induction false} Log2OfPow2(k: nat)
    ensures Log2(Pow2(k)) == k
  {
    if k > 0 {
      assert Pow2(k) / 2 == Pow2(k - 1);
      Log2OfPow2(k - 1);
    }
  }

  lemma {:induction false} Log2AtLeast(n: nat, k: nat)
    requires Pow2(k) <= n
    ensures k <= Log2(n)
  {
    if k > 0 {
      Log2AtLeast(n / 2, k - 1);
    }
  }

  lemma {:induction false} PowerShape(k: nat)
    requires 6 <= k
    ensures 64 <= Pow2(k) && Pow2(k) % 64 == 0 && Pow2(k) / 8 == Pow2(k - 3)
  {
    assert Pow2(6) == 64 by {
      assert Pow2(3) == 8;
    }
    Pow2Add(6, k - 6);
    assert Pow2(3) == 8;
    Pow2Add(3, k - 3);
  }

  /** From 256 KiB on, the filter is a multiple of 64 bits, so that the reloaded array has
      exactly as many bits as the filter had bytes and all of them are copied. */
  lemma {:induction false} FilterShape(diskSize: nat)
    requires diskSize >= 262144
    ensures 64 <= FilterBits(diskSize) && FilterBits(diskSize) % 64 == 0
    ensures Pow2(Log2(FilterBits(diskSize) / 8)) == FilterBits(diskSize) / 8
    ensures diskSize / BLOCK < 2 * FilterBits(diskSize)
  {
    var n := diskSize / BLOCK;
    var k := Log2(n);
    assert 6 <= k by {
      assert Pow2(6) == 64;
      Log2AtLeast(n, 6);
    }
    PowerShape(k);
    Log2OfPow2(k - 3);
  }

  /** The crawler's filter, saved and loaded again, answers the same for every sector of the
      disk: a sector that was marked is still marked. */
  lemma {:induction false} FilterSurvivesReload(diskSize: nat, bytes: seq<Byte>, reloaded: seq<Byte>, sector: nat)
    requires diskSize >= 262144 && sector * 512 < diskSize
    requires |bytes| == (FilterBits(diskSize) + 7) / 8
    requires |reloaded| == (FilterBits(diskSize) / 8 + 7) / 8
    requires reloaded[..FilterBits(diskSize) / 8 / 8] == bytes[..FilterBits(diskSize) / 8 / 8]
    ensures BitOf(reloaded, FilterBits(diskSize) / 8, sector / BLOCK)
            <==> BitOf(bytes, FilterBits(diskSize), sector / BLOCK)
    ensures sector / BLOCK < FilterBits(diskSize) / 8
  {
    var len := FilterBits(diskSize);
    var bit := sector / BLOCK;
    FilterShape(diskSize);
    assert bit / 8 < len / 8 / 8;
    assert reloaded[..len / 8 / 8][bit / 8] == bytes[..len / 8 / 8][bit / 8];
  }

  /** The bytes of an array rebuilt from a filter's bytes: its length is that of their number taken for
      a number of bits, and as many bytes as that number over eight are the filter's. */
  ghost predicate Reloaded(diskSize: nat, bytes: seq<Byte>, reloaded: seq<Byte>) {
    var n := FilterBits(diskSize) / 8;
    && |bytes| == (FilterBits(diskSize) + 7) / 8 && |reloaded| == (Pow2(Log2(n)) + 7) / 8
    && n / 8 <= |reloaded| && reloaded[..n / 8] == bytes[..n / 8]
  }

  ghost predicate SameAnswers(diskSize: nat, bytes: seq<Byte>, reloaded: seq<Byte>)
    requires Reloaded(diskSize, bytes, reloaded)
  {
    forall sector: nat :: sector * SECTOR_SIZE < diskSize ==>
      (BitOf(reloaded, Pow2(Log2(FilterBits(diskSize) / 8)), sector / BLOCK) <==>
       BitOf(bytes, FilterBits(diskSize), sector / BLOCK))
  }

  /** A disk with at least one sector below 256 KiB: block 0 is marked, and a reload that copies
      nothing may answer that it is not. */
  lemma {:induction false} SmallDiskForgets(diskSize: nat) returns (bytes: seq<Byte>, reloaded: seq<Byte>)
    requires 0 < diskSize < 262144
    ensures Reloaded(diskSize, bytes, reloaded) && !SameAnswers(diskSize, bytes, reloaded)
  {
    var bits := FilterBits(diskSize);
    SmallDiskCopiesNothing(diskSize);
    bytes := [1] + Zeros((bits + 7) / 8 - 1);
    reloaded := Zeros((Pow2(Log2(bits / 8)) + 7) / 8);
    assert reloaded[..0] == bytes[..0];
    assert Bit(1, 0) && !Bit(0, 0);
    assert !(BitOf(reloaded, Pow2(Log2(bits / 8)), 0 / BLOCK) <==> BitOf(bytes, bits, 0 / BLOCK));
    assert 0 * SECTOR_SIZE < diskSize;
  }

  /** Every reload of every filter of a disk answers as the filter did if and only if the disk has at
      least 256 KiB. */
  lemma {:induction false} SameAnswersIff(diskSize: nat)
    requires diskSize > 0
    ensures diskSize >= 262144 <==>
              forall bytes, reloaded :: Reloaded(diskSize, bytes, reloaded) ==> SameAnswers(diskSize, bytes, reloaded)
  {
    if diskSize >= 262144 {
      FilterShape(diskSize);
      forall bytes, reloaded | Reloaded(diskSize, bytes, reloaded) ensures SameAnswers(diskSize, bytes, reloaded) {
        forall sector: nat | sector * SECTOR_SIZE < diskSize
          ensures BitOf(reloaded, Pow2(Log2(FilterBits(diskSize) / 8)), sector / BLOCK) <==>
                  BitOf(bytes, FilterBits(diskSize), sector / BLOCK)
        {
          FilterSurvivesReload(diskSize, bytes, reloaded, sector);
        }
      }
    } else {
      var bytes, reloaded := SmallDiskForgets(diskSize);
    }
  }

  /** Below 256 KiB, and only there, the reload copies no byte of the filter at all. */
  lemma {:induction false} SmallDiskCopiesNothing(diskSize: nat)
    ensures FilterBits(diskSize) / 8 / 8 == 0 <==> diskSize < 262144
  {
    if diskSize >= 262144 {
      FilterShape(diskSize);
    }
  }

  /** End to end: save the filter of a disk after the rest of the index, load it back. */
  method SaveAndLoad(diskSize: nat, bits: BitArray, index: seq<Byte>, ghost docs: seq<seq<Kv>>) returns (loaded: BitArray)
    requires diskSize >= 262144 && FilterBits(diskSize) / 8 <= MAX_SIZE / 2
    requires bits.Valid() && bits.len == FilterBits(diskSize)
    requires index == IndexFile(docs)
    requires forall i :: 0 <= i < |docs| ==> ValidDocument(docs[i])
    requires forall i :: 0 <= i < |docs| ==>
               docs[i] != [] && docs[i][0].key == Ascii("type")
               && RecordName(docs[i]) != Ascii("metadata_filter")
    ensures loaded.Valid()
    ensures forall sector: nat :: sector * 512 < diskSize ==>
              (loaded.Get(sector / BLOCK) <==> bits.Get(sector / BLOCK))
  {
    FilterShape(diskSize);
    var document, subtype := Serialize(bits);
    ghost var bytes := bits.data[..bits.len / 8];
    ghost var record := FilterRecord(bytes, subtype);
    FilterAppended(docs, bytes, subtype);
    var file := new Bson.FileStream(index + document);
    assert file.Rest() == index + document;
    var reloaded := Load(file, docs + [record]);
    loaded := reloaded;
    forall sector: nat | sector * 512 < diskSize
      ensures loaded.Get(sector / BLOCK) <==> bits.Get(sector / BLOCK)
    {
      assert loaded.data[..][..bits.len / 8 / 8] == loaded.data[..bits.len / 8 / 8];
      assert bits.data[..][..bits.len / 8 / 8] == bytes[..bits.len / 8 / 8];
      FilterSurvivesReload(diskSize, bits.data[..], loaded.data[..], sector);
    }
  }

  lemma {:induction false} FilterFound(bytes: seq<Byte>, subtype: Byte)
    ensures FindFilter([FilterRecord(bytes, subtype)]) == Some(bytes)
  {
    var name := Ascii("metadata_filter");
    var record := FilterRecord(bytes, subtype);
    var s := FromData(record[0]) + (EncodeAll(record[1..]) + [0]);
    FindNulAt(s, 0, name);
    assert s[..|name|] == name;
  }

  lemma {:induction false} FilterRecordValid(bytes: seq<Byte>, subtype: Byte)
    requires |bytes| <= MAX_SIZE / 2
    ensures ValidDocument(FilterRecord(bytes, subtype))
    ensures FindFilter([FilterRecord(bytes, subtype)]) == Some(bytes)
  {
    hide FindFilter, Encode, EncodeAll;
    RecordSize(bytes, subtype);
    FilterFound(bytes, subtype);
  }

  lemma {:induction false} FilterAppended(docs: seq<seq<Kv>>, bytes: seq<Byte>, subtype: Byte)
    requires |bytes| <= MAX_SIZE / 2
    requires forall i :: 0 <= i < |docs| ==> ValidDocument(docs[i])
    requires forall i :: 0 <= i < |docs| ==>
               docs[i] != [] && docs[i][0].key == Ascii("type")
               && RecordName(docs[i]) != Ascii("metadata_filter")
    ensures var all := docs + [FilterRecord(bytes, subtype)];
            && IndexFile(all) == IndexFile(docs) + Frame(EncodeAll(FilterRecord(bytes, subtype)))
            && FindFilter(all) == Some(bytes)
            && forall i :: 0 <= i < |all| ==> ValidDocument(all[i])
  {
    hide Encode, EncodeAll, Frame, ValidDocument, FilterRecord;
    var record := FilterRecord(bytes, subtype);
    var all := docs + [record];
    FilterRecordValid(bytes, subtype);
    if docs == [] {
      assert all == [record] && all[1..] == [];
    } else {
      FilterAppended(docs[1..], bytes, subtype);
      assert all[1..] == docs[1..] + [record];
    }
  }

  /** Under lock contention the enqueuer never drops a write that starts at a sector the
      crawler marked: the reloaded filter still answers true for it. */
  lemma {:induction false} MarkedWriteIsNeverDropped(diskSize: nat, bytes: seq<Byte>, reloaded: seq<Byte>, s: RedisPipeline.State, w: RedisPipeline.Write)
    requires diskSize >= 262144 && 0 <= w.sector && w.sector * 512 < diskSize
    requires |bytes| == (FilterBits(diskSize) + 7) / 8
    requires |reloaded| == (FilterBits(diskSize) / 8 + 7) / 8
    requires reloaded[..FilterBits(diskSize) / 8 / 8] == bytes[..FilterBits(diskSize) / 8 / 8]
    requires BitOf(bytes, FilterBits(diskSize), w.sector / BLOCK)
    requires RedisPipeline.Reachable(Marked(reloaded, FilterBits(diskSize) / 8), s)
    ensures w !in s.dropped
  {
    FilterSurvivesReload(diskSize, bytes, reloaded, w.sector);
    RedisPipeline.MarkedNeverDropped(Marked(reloaded, FilterBits(diskSize) / 8), s, w);
  }

  /** And when the enqueuer is idle again, sector and payload of every such write ever handed to it stand
      in the queue, however the threads were scheduled. */
  lemma {:induction false} MarkedWriteIsPushed(diskSize: nat, bytes: seq<Byte>, reloaded: seq<Byte>, initial: nat,
                                               schedule: seq<RedisPipeline.Action>, w: RedisPipeline.Write)
    requires diskSize >= 262144 && 0 <= w.sector && w.sector * 512 < diskSize
    requires |bytes| == (FilterBits(diskSize) + 7) / 8
    requires |reloaded| == (FilterBits(diskSize) / 8 + 7) / 8
    requires reloaded[..FilterBits(diskSize) / 8 / 8] == bytes[..FilterBits(diskSize) / 8 / 8]
    requires BitOf(bytes, FilterBits(diskSize), w.sector / BLOCK)
    requires w in RedisPipeline.Begun(schedule)
    ensures var end := RedisPipeline.Run(Marked(reloaded, FilterBits(diskSize) / 8), RedisPipeline.Init(initial), schedule);
            end.Some? && end.value.enq == RedisPipeline.EIdle ==> exists k: nat :: RedisPipeline.PairStands(end.value.sent, k, w)
  {
    hide RedisPipeline.Run;
    var marked := Marked(reloaded, FilterBits(diskSize) / 8);
    FilterSurvivesReload(diskSize, bytes, reloaded, w.sector);
    if RedisPipeline.Run(marked, RedisPipeline.Init(initial), schedule).Some? {
      RedisPipeline.MarkedIsPushed(marked, initial, schedule, w);
    }
  }

  /** The test the enqueuer makes when it finds a lock taken. */
  function Marked(bytes: seq<Byte>, len: nat): int -> bool
    requires |bytes| == (len + 7) / 8
  {
    sector => BitOf(bytes, len, BitIndex(sector))
  }

  /** The signed division of the source, its quotient passed as an unsigned number: a sector just below
      zero asks for bit 0. */
  function BitIndex(sector: int): nat {
    if sector >= 0 then sector / BLOCK else -((-sector) / BLOCK) % TWO64
  }
}
