/**
 What a client of the block device sees: requests and options encoded as the "Request message" and
 "Newstyle negotiation" sections of the NBD protocol document lay them out, and the answers of the
 server, byte by byte.
 */
module NbdRequests {
  import opened Bytes
  import opened NbdSpec

  function EncodeRequest(command: nat, handle: nat, offset: nat, length: nat): (r: seq<Byte>)
    ensures |r| == 28
  {
    ToBe(0x25609513, 4) + ToBe(command, 4) + ToBe(handle, 8) + ToBe(offset, 8) + ToBe(length, 4)
  }

  function EncodeOption(option: nat, data: seq<Byte>): (r: seq<Byte>)
    ensures |r| == 16 + |data|
  {
    ToBe(0x49484156454F5054, 8) + ToBe(option, 4) + ToBe(|data|, 4) + data
  }

  /** The "Simple reply message". */
  predicate IsReply(r: seq<Byte>, error: nat, handle: nat) {
    |r| == 16 && Be(r[0..4]) == 0x67446698 && Be(r[4..8]) == error && Be(r[8..16]) == handle
  }

  lemma Radixes()
    ensures Radix(2) == 0x1_0000 && Radix(4) == TWO32 && Radix(8) == TWO64
  {
    assert Radix(2) == 0x1_0000;
    assert Radix(4) == 0x1_0000_0000;
    assert Radix(6) == 0x1_0000_0000_0000;
  }

  predicate InRange(handle: nat, offset: nat, length: nat) {
    handle < TWO64 && offset < TWO64 && length < TWO32
  }

  lemma {:induction false} PartsAt(b: seq<Byte>, v: seq<Byte>, w: seq<Byte>, x: seq<Byte>, y: seq<Byte>, z: seq<Byte>, rest: seq<Byte>)
    requires b == v + w + x + y + z + rest && |v| == 4 && |w| == 4 && |x| == 8 && |y| == 8 && |z| == 4
    ensures b[0..4] == v && b[4..8] == w && b[8..16] == x && b[16..24] == y && b[24..28] == z && b[28..] == rest
  {
  }

  /** The server reads a request's fields back. */
  lemma {:induction false} RequestReadsBack(b: seq<Byte>, command: nat, handle: nat, offset: nat, length: nat, rest: seq<Byte>)
    requires command < TWO32 && InRange(handle, offset, length) && b == EncodeRequest(command, handle, offset, length) + rest
    ensures Field(b, 0, 4) == REQUEST_MAGIC && Field(b, 4, 4) == command && Field(b, 8, 8) == handle
    ensures Field(b, 16, 8) == offset && Field(b, 24, 4) == length && b[REQ_HEADER..] == rest
  {
    Radixes();
    hide Radix;
    BeToBe(0x25609513, 4);
    BeToBe(command, 4);
    BeToBe(handle, 8);
    BeToBe(offset, 8);
    BeToBe(length, 4);
    hide Be, ToBe;
    PartsAt(b, ToBe(0x25609513, 4), ToBe(command, 4), ToBe(handle, 8), ToBe(offset, 8), ToBe(length, 4), rest);
  }

  lemma {:induction false} ResponseIsReply(error: nat, handle: nat)
    requires error < TWO32 && handle < TWO64
    ensures IsReply(Response(error, handle), error, handle)
  {
    Radixes();
    ResponseFields(error, handle);
  }

  /** The request is answered and what follows it is handled next; what else changes, the cases say. */
  ghost predicate Answered(e: Export, c: Client, d: Client, error: nat, handle: nat, data: seq<Byte>, rest: seq<Byte>)
    requires c.phase == DataPushing && d.phase == DataPushing
  {
    && Handle(e, c) == Handle(e, d) && d.input == rest
    && |d.output| == |c.output| + 16 + |data| && d.output[..|c.output|] == c.output
    && IsReply(d.output[|c.output|..|c.output| + 16], error, handle) && d.output[|c.output| + 16..] == data
  }

  lemma {:induction false} AnsweredBy(e: Export, c: Client, d: Client, error: nat, handle: nat, data: seq<Byte>)
    requires c.phase == DataPushing && c.input != [] && Pass(e, c) == Again(d) && d.phase == DataPushing
    requires error < TWO32 && handle < TWO64 && d.output == c.output + Response(error, handle) + data
    ensures Answered(e, c, d, error, handle, data, d.input)
  {
    HandleStep(e, c);
    ResponseIsReply(error, handle);
    hide Pass, Handle, Response;
    assert |Response(error, handle)| == 16;
    assert d.output[|c.output|..|c.output| + 16] == Response(error, handle);
  }

  // ---------------------------------------------------------------- answers

  /** A READ that lies inside the disk: no error, then byte `offset + i` of the disk for every i. */
  lemma {:induction false} ReadAnswer(e: Export, c: Client, handle: nat, offset: nat, length: nat, rest: seq<Byte>)
    returns (d: Client, data: seq<Byte>)
    requires c.phase == DataPushing && InRange(handle, offset, length)
    requires c.input == EncodeRequest(0, handle, offset, length) + rest
    requires offset <= e.seekLimit && offset + length <= |c.disk|
    ensures d == c.(input := rest, output := d.output) && Answered(e, c, d, 0, handle, data, rest)
    ensures |data| == length && forall i :: 0 <= i < length ==> data[i] == c.disk[offset + i]
  {
    RequestReadsBack(c.input, 0, handle, offset, length, rest);
    hide EncodeRequest, Response, Field, Answered, Handle;
    d := Pass(e, c).client;
    data := if length == 0 then [] else c.disk[offset..offset + length];
    AnsweredBy(e, c, d, 0, handle, data);
  }

  /** A WRITE: no error; the disk has the payload in its range, zeros in a gap before it and nothing
      else changed; sector number and payload are queued, sector first; the counters count it. */
  lemma {:induction false} WriteAnswer(e: Export, c: Client, handle: nat, offset: nat, x: seq<Byte>, rest: seq<Byte>)
    returns (d: Client)
    requires c.phase == DataPushing && InRange(handle, offset, |x|)
    requires c.input == EncodeRequest(1, handle, offset, |x|) + (x + rest)
    requires offset <= e.seekLimit
    ensures d == c.(input := rest, output := d.output, disk := d.disk, queue := d.queue,
                    writeCount := c.writeCount + 1, writeBytes := c.writeBytes + |x|)
    ensures Answered(e, c, d, 0, handle, [], rest)
    ensures x != [] ==> |d.disk| == Max(|c.disk|, offset + |x|)
    ensures x == [] ==> d.disk == c.disk
    ensures forall i :: 0 <= i < |x| ==> offset + i < |d.disk| && d.disk[offset + i] == x[i]
    ensures forall i :: 0 <= i < |d.disk| && !(offset <= i < offset + |x|) ==> d.disk[i] == (if i < |c.disk| then c.disk[i] else 0)
    ensures |d.queue| == |c.queue| + 2 && d.queue[2..] == c.queue && d.queue[0] == x
    ensures |d.queue[1]| == 8 && Le(d.queue[1]) == offset / SECTOR_SIZE
  {
    hide EncodeRequest, Response, Answered, Handle, WriteAt, Le, ToLe, Pass;
    d := WritePass(e, c, handle, offset, x, rest);
    SectorNumber(offset);
    assert d.output == c.output + Response(0, handle) + [];
    AnsweredBy(e, c, d, 0, handle, []);
    WriteIsPlain(c.disk, offset, x);
  }

  lemma {:induction false} WritePass(e: Export, c: Client, handle: nat, offset: nat, x: seq<Byte>, rest: seq<Byte>)
    returns (d: Client)
    requires c.phase == DataPushing && InRange(handle, offset, |x|)
    requires c.input == EncodeRequest(1, handle, offset, |x|) + (x + rest)
    requires offset <= e.seekLimit
    ensures Pass(e, c) == Again(d)
    ensures d == c.(input := rest, output := c.output + Response(0, handle), disk := WriteAt(c.disk, offset, x),
                    queue := [x] + ([ToLe(offset / SECTOR_SIZE, 8)] + c.queue),
                    writeCount := c.writeCount + 1, writeBytes := c.writeBytes + |x|)
  {
    RequestReadsBack(c.input, 1, handle, offset, |x|, x + rest);
    PayloadAt(c.input, x, rest);
    hide EncodeRequest, Response, Field, WriteAt, ToLe;
    d := Pass(e, c).client;
  }

  lemma {:induction false} PayloadAt(b: seq<Byte>, x: seq<Byte>, rest: seq<Byte>)
    requires |b| >= REQ_HEADER && b[REQ_HEADER..] == x + rest
    ensures |b| >= REQ_HEADER + |x| && b[REQ_HEADER..REQ_HEADER + |x|] == x && b[REQ_HEADER + |x|..] == rest
  {
    assert b[REQ_HEADER..REQ_HEADER + |x|] == b[REQ_HEADER..][..|x|];
    assert b[REQ_HEADER + |x|..] == b[REQ_HEADER..][|x|..];
  }

  lemma {:induction false} SectorNumber(offset: nat)
    requires offset < TWO64
    ensures Le(ToLe(offset / SECTOR_SIZE, 8)) == offset / SECTOR_SIZE
  {
    Radixes();
    LeToLe(offset / SECTOR_SIZE, 8);
  }

  lemma {:induction false} WriteIsPlain(disk: seq<Byte>, offset: nat, x: seq<Byte>)
    ensures var r := WriteAt(disk, offset, x);
            && (x != [] ==> |r| == Max(|disk|, offset + |x|)) && (x == [] ==> r == disk)
            && (forall i :: 0 <= i < |x| ==> offset + i < |r| && r[offset + i] == x[i])
            && (forall i :: 0 <= i < |r| && !(offset <= i < offset + |x|) ==> r[i] == (if i < |disk| then disk[i] else 0))
  {
    if x != [] {
      WriteAtBytes(disk, offset, x);
      var r := WriteAt(disk, offset, x);
      forall i | 0 <= i < |x| ensures r[offset + i] == x[i] {
        assert r[offset..offset + |x|][i] == x[i];
      }
    }
  }

  /** A TRIM of a range: no error, zeros in the range, every other byte and the size as before. Of no
      bytes, or at an offset that is negative as a signed number: an error and nothing else. */
  lemma {:induction false} TrimAnswer(e: Export, c: Client, handle: nat, offset: nat, length: nat, rest: seq<Byte>)
    returns (d: Client)
    requires c.phase == DataPushing && InRange(handle, offset, length)
    requires c.input == EncodeRequest(4, handle, offset, length) + rest
    ensures d == c.(input := rest, output := d.output, disk := d.disk) && |d.disk| == |c.disk|
    ensures var done := length > 0 && offset < 0x8000_0000_0000_0000;
            && Answered(e, c, d, if done then 0 else 22, handle, [], rest)
            && forall i :: 0 <= i < |c.disk| ==> d.disk[i] == if done && offset <= i < offset + length then 0 else c.disk[i]
  {
    RequestReadsBack(c.input, 4, handle, offset, length, rest);
    hide EncodeRequest, Response, Field, Answered, Handle;
    d := Pass(e, c).client;
    var error := if length > 0 && offset < 0x8000_0000_0000_0000 then 0 else 22;
    assert d.output == c.output + Response(error, handle) + [];
    AnsweredBy(e, c, d, error, handle, []);
  }

  /** A FLUSH changes nothing and is answered without error. */
  lemma {:induction false} FlushAnswer(e: Export, c: Client, handle: nat, offset: nat, length: nat, rest: seq<Byte>)
    returns (d: Client)
    requires c.phase == DataPushing && InRange(handle, offset, length)
    requires c.input == EncodeRequest(3, handle, offset, length) + rest
    ensures d == c.(input := rest, output := d.output) && Answered(e, c, d, 0, handle, [], rest)
  {
    RequestReadsBack(c.input, 3, handle, offset, length, rest);
    hide EncodeRequest, Response, Field, Answered, Handle;
    d := Pass(e, c).client;
    assert d.output == c.output + Response(0, handle) + [];
    AnsweredBy(e, c, d, 0, handle, []);
  }

  /** An offset the file cannot be positioned at: READ and WRITE are answered with an error, the disk
      and the queue stay, and the write is counted all the same. */
  lemma {:induction false} SeekFails(e: Export, c: Client, handle: nat, offset: nat, x: seq<Byte>, write: bool, rest: seq<Byte>)
    returns (d: Client, data: seq<Byte>)
    requires c.phase == DataPushing && InRange(handle, offset, |x|) && offset > e.seekLimit
    requires c.input == EncodeRequest(if write then 1 else 0, handle, offset, |x|) + ((if write then x else []) + rest)
    ensures d.phase == DataPushing && Answered(e, c, d, 22, handle, data, rest) && |data| == (if write then 0 else |x|)
    ensures d.disk == c.disk && d.queue == c.queue
    ensures d.writeCount == c.writeCount + (if write then 1 else 0) && d.writeBytes == c.writeBytes + (if write then |x| else 0)
  {
    var tail := (if write then x else []) + rest;
    RequestReadsBack(c.input, if write then 1 else 0, handle, offset, |x|, tail);
    if write {
      assert c.input[REQ_HEADER + |x|..] == c.input[REQ_HEADER..][|x|..] == rest;
    } else {
      assert tail == rest;
    }
    hide EncodeRequest, Response, Field, Answered, Handle, WriteAt;
    d := Pass(e, c).client;
    data := if write then [] else Zeros(|x|);
    assert d.output == c.output + Response(22, handle) + data;
    AnsweredBy(e, c, d, 22, handle, data);
  }

  /** DISC, and any command the server does not know, end the connection: nothing more is sent, and the
      disk and the queue stay. */
  lemma {:induction false} EndOfRequests(e: Export, c: Client, command: nat, handle: nat, offset: nat, length: nat, rest: seq<Byte>)
    requires c.phase == DataPushing && InRange(handle, offset, length) && command < TWO32
    requires c.input == EncodeRequest(command, handle, offset, length) + rest
    requires command == 2 || command > 4
    ensures var d := Handle(e, c); d == c.(phase := Disconnected, input := d.input)
  {
    RequestReadsBack(c.input, command, handle, offset, length, rest);
    hide EncodeRequest, Response, Field;
    if command == 2 {
      HandleStep(e, c);
    }
  }

  /** The client's flags and the right export name: the answer is the size of the export, the flags the
      server has and 124 zeros, and requests follow. */
  lemma {:induction false} NegotiationAnswer(e: Export, c: Client, rest: seq<Byte>) returns (d: Client)
    requires c.phase == HandshakeSent && 0 < |e.name| < TWO32 && e.size < TWO64
    requires c.input == [0, 0, 0, 0] + (EncodeOption(1, e.name) + rest)
    ensures Supported(c) && d == c.(phase := DataPushing, input := rest, output := d.output)
    ensures Handle(e, c) == Handle(e, d)
    ensures |d.output| == |c.output| + 134 && d.output[..|c.output|] == c.output
    ensures Be(d.output[|c.output|..|c.output| + 8]) == e.size && Be(d.output[|c.output| + 8..|c.output| + 10]) == 0x3d
    ensures d.output[|c.output| + 10..] == Zeros(124)
  {
    hide EncodeOption, Field, Handle, Pass, Supported, ExportInfo;
    var b := EncodeOption(1, e.name) + rest;
    var c' := c.(phase := ZeroReceived, input := b);
    d := OptionStep(e, c', rest);
    FlagsStep(e, c, b);
    HandleStep(e, c);
    HandleStep(e, c');
    InfoReadsBack(e);
    var n := |c.output|;
    assert d.output[n..n + 8] == ExportInfo(e)[..8] && d.output[n + 8..n + 10] == ExportInfo(e)[8..10];
    assert d.output[n + 10..] == ExportInfo(e)[10..];
  }

  lemma {:induction false} FlagsStep(e: Export, c: Client, b: seq<Byte>)
    requires c.phase == HandshakeSent && c.input == [0, 0, 0, 0] + b && KnownOption(b)
    ensures Supported(c) && Pass(e, c) == Again(c.(phase := ZeroReceived, input := b))
  {
    ZeroFlags(c.input, b);
    hide Field, KnownOption;
  }

  lemma {:induction false} OptionStep(e: Export, c: Client, rest: seq<Byte>) returns (d: Client)
    requires c.phase == ZeroReceived && 0 < |e.name| < TWO32 && c.input == EncodeOption(1, e.name) + rest
    ensures KnownOption(c.input) && Supported(c) && Pass(e, c) == Again(d)
    ensures d == c.(phase := DataPushing, input := rest, output := c.output + ExportInfo(e))
  {
    OptionReadsBack(c.input, 1, e.name, rest);
    assert c.input[16..][..|e.name|] == e.name && c.input[16..][|e.name|..] == rest;
    hide EncodeOption, Field, ExportInfo;
    d := c.(phase := DataPushing, input := rest, output := c.output + ExportInfo(e));
  }

  /** Any option but EXPORT_NAME and ABORT: each pass sends twenty bytes that echo the option and say that
      it is not supported. */
  lemma {:induction false} UnsupportedAnswer(e: Export, c: Client, option: nat, data: seq<Byte>, rest: seq<Byte>)
    requires c.phase == ZeroReceived && option < TWO32 && |data| < TWO32 && c.input == EncodeOption(option, data) + rest
    requires option != 1 && option != 2
    ensures Pass(e, c).Again?
    ensures var d, n := Pass(e, c).client, |c.output|;
            && d == c.(output := d.output) && |d.output| == n + 20 && d.output[..n] == c.output
            && Be(d.output[n..n + 8]) == 0x3e889045565a9 && Be(d.output[n + 8..n + 12]) == option
            && Be(d.output[n + 12..n + 16]) == 0x8000_0001 && Be(d.output[n + 16..n + 20]) == 0
  {
    hide Pass, EncodeOption, UnsupportedReply;
    UnsupportedPass(e, c, option, data, rest);
    hide Be;
    var r := UnsupportedReply(c.input[8..12]);
    ReplyReadsBack(c.input[8..12]);
    Behind(c.output, r, 0, 8);
    Behind(c.output, r, 8, 12);
    Behind(c.output, r, 12, 16);
    Behind(c.output, r, 16, 20);
  }

  lemma {:induction false} UnsupportedPass(e: Export, c: Client, option: nat, data: seq<Byte>, rest: seq<Byte>)
    requires c.phase == ZeroReceived && option < TWO32 && |data| < TWO32 && c.input == EncodeOption(option, data) + rest
    requires option != 1 && option != 2
    ensures Pass(e, c) == Again(c.(output := c.output + UnsupportedReply(c.input[8..12]))) && Be(c.input[8..12]) == option
  {
    OptionReadsBack(c.input, option, data, rest);
    hide EncodeOption, UnsupportedReply, Be;
  }

  lemma Behind(a: seq<Byte>, b: seq<Byte>, from: nat, to: nat)
    requires from <= to <= |b|
    ensures (a + b)[|a| + from..|a| + to] == b[from..to] && (a + b)[..|a|] == a
  {
  }

  lemma {:induction false} ReplyReadsBack(option: seq<Byte>)
    requires |option| == 4
    ensures var r := UnsupportedReply(option);
            && |r| == 20 && Be(r[0..8]) == 0x3e889045565a9 && r[8..12] == option && Be(r[12..16]) == 0x8000_0001
            && Be(r[16..20]) == 0
  {
    Radixes();
    hide Radix;
    BeToBe(0x3e889045565a9, 8);
    BeToBe(0x8000_0001, 4);
    BeToBe(0, 4);
    hide Be, ToBe;
    var r := UnsupportedReply(option);
    assert r[0..8] == ToBe(OPTION_REPLY_MAGIC, 8) && r[8..12] == option && r[12..16] == ToBe(0x8000_0001, 4);
    assert r[16..20] == ToBe(0, 4);
  }

  lemma {:induction false} ZeroFlags(b: seq<Byte>, rest: seq<Byte>)
    requires b == [0, 0, 0, 0] + rest
    ensures Field(b, 0, 4) == 0 && b[4..] == rest
  {
    assert b[0..4] == [0, 0, 0, 0];
    assert Be([0, 0, 0, 0]) == 0 by {
      assert [0, 0, 0, 0][..3] == [0, 0, 0] && [0, 0, 0][..2] == [0, 0] && [0, 0][..1] == [0] && [0][..0] == [];
    }
  }

  lemma {:induction false} InfoReadsBack(e: Export)
    requires e.size < TWO64
    ensures |ExportInfo(e)| == 134 && Be(ExportInfo(e)[..8]) == e.size && Be(ExportInfo(e)[8..10]) == 0x3d
    ensures ExportInfo(e)[10..] == Zeros(124)
  {
    Radixes();
    hide Radix;
    BeToBe(e.size, 8);
    BeToBe(0x3d, 2);
    hide Be, ToBe;
    assert ExportInfo(e)[8..10] == ToBe(0x3d, 2);
    assert ExportInfo(e)[..8] == ToBe(e.size, 8);
    assert ExportInfo(e)[10..] == Zeros(124);
  }

  lemma {:induction false} OptionReadsBack(b: seq<Byte>, option: nat, data: seq<Byte>, rest: seq<Byte>)
    requires option < TWO32 && |data| < TWO32 && b == EncodeOption(option, data) + rest
    ensures Field(b, 0, 8) == NEW_PROTOCOL && Field(b, 8, 4) == option && Field(b, 12, 4) == |data|
    ensures b[16..16 + |data|] == data
  {
    Radixes();
    hide Radix;
    BeToBe(0x49484156454F5054, 8);
    BeToBe(option, 4);
    BeToBe(|data|, 4);
    hide Be, ToBe;
    assert b[0..8] == ToBe(0x49484156454F5054, 8) && b[8..12] == ToBe(option, 4) && b[12..16] == ToBe(|data|, 4);
  }

  // ---------------------------------------------------------------- read back

  /** One stream: x is written and its range read. The output ends with x, for every disk. */
  lemma {:induction false} WriteThenRead(e: Export, c: Client, h1: nat, h2: nat, offset: nat, x: seq<Byte>)
    requires c.phase == DataPushing && InRange(h1, offset, |x|) && h2 < TWO64 && offset <= e.seekLimit
    requires x != [] || offset <= |c.disk|
    requires c.input == EncodeRequest(1, h1, offset, |x|) + (x + EncodeRequest(0, h2, offset, |x|))
    ensures var r := Handle(e, c);
            && r.phase == DataPushing && r.input == [] && |r.output| == |c.output| + 32 + |x|
            && r.output[|c.output| + 32..] == x && r.output[..|c.output|] == c.output
            && IsReply(r.output[|c.output|..|c.output| + 16], 0, h1)
            && IsReply(r.output[|c.output| + 16..|c.output| + 32], 0, h2)
  {
    hide EncodeRequest, Handle, IsReply;
    var d := WriteAnswer(e, c, h1, offset, x, EncodeRequest(0, h2, offset, |x|));
    assert d.input == EncodeRequest(0, h2, offset, |x|) + [];
    var f, data := ReadAnswer(e, d, h2, offset, |x|, []);
    assert data == x;
    HandleNothing(e, f);
    var n := |c.output|;
    assert |d.output| == n + 16;
    assert f.output[..n] == f.output[..n + 16][..n];
    assert f.output[n..n + 16] == f.output[..n + 16][n..] == d.output[n..n + 16];
  }

  lemma HandleNothing(e: Export, c: Client)
    requires c.input == [] && Supported(c)
    ensures Handle(e, c) == c
  {
  }
}
