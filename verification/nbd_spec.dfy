/**
 The network block device server as a function of its input (nbd.c): the "Newstyle
 negotiation", "Request message" and "Simple reply message" sections of the NBD protocol
 document, as this server implements them. One pass of the handler loop looks at the bytes
 received so far and either waits for more or makes progress. How the bytes are cut into
 arrivals makes no difference to anything the server does.
 */
module NbdSpec {
  import opened Bytes

  const NEW_PROTOCOL: nat := 0x49484156454F5054
  const OPTION_REPLY_MAGIC: nat := 0x3e889045565a9
  const REQUEST_MAGIC: nat := 0x25609513
  const REPLY_MAGIC: nat := 0x67446698
  const EINVAL: nat := 22
  const SIGN_BIT: nat := 0x8000_0000_0000_0000

  const OPT_EXPORT_NAME: nat := 1
  const OPT_ABORT: nat := 2

  const CMD_READ: nat := 0
  const CMD_WRITE: nat := 1
  const CMD_DISC: nat := 2
  const CMD_FLUSH: nat := 3
  const CMD_TRIM: nat := 4

  const OPT_HEADER: nat := 16
  const REQ_HEADER: nat := 28

  /** An offset that is not negative as an off64_t. */
  type Offset = n: nat | n < SIGN_BIT

  /** The exported device; lseek64 refuses offsets above the limit, and negative ones. */
  datatype Export = Export(name: seq<Byte>, size: nat, seekLimit: Offset)

  /** State of one connection. `Stalled` stands for the read loop that never ends because the
      request reaches past the end of the disk; like `Disconnected` it is never left. */
  datatype Phase = HandshakeSent | ZeroReceived | DataPushing | Disconnected | Stalled

  datatype Client = Client(
    phase: Phase,
    input: seq<Byte>,         // received, not yet consumed
    output: seq<Byte>,        // sent
    disk: seq<Byte>,
    queue: seq<seq<Byte>>,    // the Redis list writequeue, head first
    writeCount: nat,
    writeBytes: nat)

  /** What one pass tells the handler loop. */
  datatype Outcome = Again(client: Client) | Return(client: Client)

  function Field(b: seq<Byte>, at: nat, n: nat): nat
    requires at + n <= |b|
  {
    Be(b[at..at + n])
  }

  // ---------------------------------------------------------------- replies

  function ExportInfo(e: Export): seq<Byte> {
    ToBe(e.size, 8) + ToBe(0x3d, 2) + Zeros(124)
  }

  function UnsupportedReply(option: seq<Byte>): seq<Byte> {
    ToBe(OPTION_REPLY_MAGIC, 8) + option + ToBe(0x8000_0001, 4) + ToBe(0, 4)
  }

  function Response(error: nat, handle: nat): seq<Byte> {
    ToBe(REPLY_MAGIC, 4) + ToBe(error, 4) + ToBe(handle, 8)
  }

  /** A client reads back the request's handle and the error at the offsets of the protocol. */
  lemma {:induction false} ResponseFields(error: nat, handle: nat)
    requires error < Radix(4) && handle < Radix(8)
    ensures var r := Response(error, handle);
            && |r| == 16 && Field(r, 0, 4) == REPLY_MAGIC && Field(r, 4, 4) == error && Field(r, 8, 8) == handle
  {
    var r := Response(error, handle);
    assert REPLY_MAGIC < Radix(4) by {
      assert Radix(2) == 0x1_0000;
    }
    BeToBe(REPLY_MAGIC, 4);
    BeToBe(error, 4);
    BeToBe(handle, 8);
    assert r[0..4] == ToBe(REPLY_MAGIC, 4) && r[4..8] == ToBe(error, 4) && r[8..16] == ToBe(handle, 8);
  }

  // ---------------------------------------------------------------- disk

  /** The disk after writing `x` at `at`; a write past the end extends it with zeros. */
  function WriteAt(disk: seq<Byte>, at: nat, x: seq<Byte>): seq<Byte> {
    if x == [] then disk else
    var padded := if |disk| < at then disk + Zeros(at - |disk|) else disk;
    padded[..at] + x + (if at + |x| < |padded| then padded[at + |x|..] else [])
  }

  /** A write changes exactly its own range; what lies between the old end and the start of the
      range reads as zeros. */
  lemma WriteAtBytes(disk: seq<Byte>, at: nat, x: seq<Byte>)
    requires x != []
    ensures var d := WriteAt(disk, at, x);
            && |d| == Max(|disk|, at + |x|)
            && d[at..at + |x|] == x
            && (forall i :: 0 <= i < |disk| && !(at <= i < at + |x|) ==> d[i] == disk[i])
            && (forall i :: |disk| <= i < at ==> d[i] == 0)
  {
  }

  /** FALLOC_FL_PUNCH_HOLE | FALLOC_FL_KEEP_SIZE */
  function PunchHole(disk: seq<Byte>, at: nat, n: nat): seq<Byte> {
    seq(|disk|, i requires 0 <= i < |disk| => if at <= i < at + n then 0 else disk[i])
  }

  // ---------------------------------------------------------------- one pass

  function Disconnect(c: Client): Client {
    c.(phase := Disconnected)
  }

  function ZeroHandshake(c: Client): Outcome {
    if |c.input| < 4 then Return(c)
    else if Field(c.input, 0, 4) != 0 then Again(Disconnect(c))
    else Again(c.(phase := ZeroReceived, input := c.input[4..]))
  }

  function ExportName(e: Export, c: Client, len: nat): Outcome
    requires OPT_HEADER <= |c.input|
  {
    if len != |e.name| then Again(Disconnect(c))
    else if |c.input| < OPT_HEADER + len then Return(c)
    else
      var rest := c.(input := c.input[OPT_HEADER..]);
      if len == 0 || rest.input[..len] != e.name then Again(Disconnect(rest))
      else Again(rest.(phase := DataPushing, output := c.output + ExportInfo(e), input := rest.input[len..]))
  }

  function OptHeader(e: Export, c: Client): Outcome {
    if |c.input| < OPT_HEADER then Return(c)
    else if Field(c.input, 0, 8) != NEW_PROTOCOL then Again(Disconnect(c))
    else if Field(c.input, 8, 4) == OPT_EXPORT_NAME then ExportName(e, c, Field(c.input, 12, 4))
    else if Field(c.input, 8, 4) == OPT_ABORT then Again(Disconnect(c))
    else Again(c.(output := c.output + UnsupportedReply(c.input[8..12])))
  }

  /** Behind the reply to a seek that fails come as many bytes of the buffer as were asked for;
      nothing has been read into it. */
  function ReadRequest(e: Export, c: Client, handle: nat, offset: nat, length: nat): Outcome
    requires REQ_HEADER <= |c.input|
  {
    if offset > e.seekLimit then
      Again(c.(input := c.input[REQ_HEADER..], output := c.output + Response(EINVAL, handle) + Zeros(length)))
    else if length > 0 && offset + length > |c.disk| then Return(c.(phase := Stalled))
    else
      var data := if length == 0 then [] else c.disk[offset..offset + length];
      Again(c.(input := c.input[REQ_HEADER..], output := c.output + Response(0, handle) + data))
  }

  /** A write is counted before the seek that may refuse it. */
  function WriteRequest(e: Export, c: Client, handle: nat, offset: nat, length: nat): Outcome
    requires REQ_HEADER <= |c.input|
  {
    if |c.input| < REQ_HEADER + length then Return(c)
    else
      var data := c.input[REQ_HEADER..REQ_HEADER + length];
      var counted := c.(input := c.input[REQ_HEADER + length..],
                        writeCount := c.writeCount + 1,
                        writeBytes := c.writeBytes + length);
      if offset > e.seekLimit then Again(counted.(output := c.output + Response(EINVAL, handle))) else
      Again(counted.(
               disk := WriteAt(c.disk, offset, data),
               queue := [data] + ([ToLe(offset / 512, 8)] + c.queue),
               output := c.output + Response(0, handle)))
  }

  function TrimRequest(c: Client, handle: nat, offset: nat, length: nat): Outcome
    requires REQ_HEADER <= |c.input|
  {
    var rest := c.(input := c.input[REQ_HEADER..]);
    if length == 0 || offset >= SIGN_BIT then Again(rest.(output := c.output + Response(EINVAL, handle)))
    else Again(rest.(disk := PunchHole(c.disk, offset, length), output := c.output + Response(0, handle)))
  }

  function UnknownRequest(c: Client, length: nat): Outcome
    requires REQ_HEADER <= |c.input|
  {
    var rest := if REQ_HEADER + length <= |c.input| then c.input[REQ_HEADER + length..] else c.input;
    Return(Disconnect(c).(input := rest))
  }

  function Request(e: Export, c: Client): Outcome {
    if |c.input| < REQ_HEADER || Field(c.input, 0, 4) != REQUEST_MAGIC then Return(c) else
    var command, handle := Field(c.input, 4, 4), Field(c.input, 8, 8);
    var offset, length := Field(c.input, 16, 8), Field(c.input, 24, 4);
    if command == CMD_READ then ReadRequest(e, c, handle, offset, length)
    else if command == CMD_WRITE then WriteRequest(e, c, handle, offset, length)
    else if command == CMD_DISC then Again(Disconnect(c).(input := c.input[REQ_HEADER..]))
    else if command == CMD_FLUSH then
      Again(c.(input := c.input[REQ_HEADER..], output := c.output + Response(0, handle)))
    else if command == CMD_TRIM then TrimRequest(c, handle, offset, length)
    else UnknownRequest(c, length)
  }

  /** The body of the handler loop. */
  function Pass(e: Export, c: Client): Outcome {
    match c.phase
    case HandshakeSent => ZeroHandshake(c)
    case ZeroReceived => OptHeader(e, c)
    case DataPushing => Request(e, c)
    case Disconnected => Return(c)
    case Stalled => Return(c)
  }

  // ---------------------------------------------------------------- termination

  /** The option header at the head of `b` asks for something the server understands. */
  predicate KnownOption(b: seq<Byte>) {
    |b| >= OPT_HEADER && Field(b, 0, 8) == NEW_PROTOCOL ==>
      Field(b, 8, 4) == OPT_EXPORT_NAME || Field(b, 8, 4) == OPT_ABORT
  }

  /** The bytes received so far use no option but EXPORT_NAME and ABORT. */
  predicate Supported(c: Client) {
    match c.phase
    case HandshakeSent => |c.input| >= 4 && Field(c.input, 0, 4) == 0 ==> KnownOption(c.input[4..])
    case ZeroReceived => KnownOption(c.input)
    case _ => true
  }

  function PhaseRank(p: Phase): nat {
    match p
    case HandshakeSent => 3
    case ZeroReceived => 2
    case DataPushing => 1
    case _ => 0
  }

  /** A pass that goes on has advanced the phase or consumed input, and stays supported. */
  lemma PassProgress(e: Export, c: Client)
    requires Supported(c) && Pass(e, c).Again?
    ensures var d := Pass(e, c).client;
            && Supported(d)
            && (PhaseRank(d.phase) < PhaseRank(c.phase)
                || (d.phase == c.phase && |d.input| < |c.input|))
  {
  }

  /** nbd_client_handler: passes until one returns or the input is used up. */
  function Handle(e: Export, c: Client): (r: Client)
    requires Supported(c)
    ensures Supported(r)
    decreases PhaseRank(c.phase), |c.input|
  {
    if c.input == [] then c else
    match Pass(e, c)
    case Return(d) => d
    case Again(d) => PassProgress(e, c); Handle(e, d)
  }

  /** `n` passes of the loop, if none of them returns. */
  function Passes(e: Export, c: Client, n: nat): Outcome
    decreases n
  {
    if n == 0 then Again(c) else
    match Pass(e, c)
    case Return(d) => Return(d)
    case Again(d) => if d.input == [] then Return(d) else Passes(e, d, n - 1)
  }

  /** Any other option is answered without being consumed, so the loop never ends. */
  lemma {:induction false} UnknownOptionSpins(e: Export, c: Client, n: nat)
    requires c.phase == ZeroReceived && !Supported(c)
    ensures var r := Passes(e, c, n);
            r.Again? && r.client.phase == ZeroReceived && r.client.input == c.input
            && |r.client.output| == |c.output| + 20 * n
    decreases n
  {
    if n > 0 {
      UnknownOptionSpins(e, Pass(e, c).client, n - 1);
    }
  }

  /** The same when the option is still behind the handshake's zero flags. */
  lemma {:induction false} UnsupportedNeverReturns(e: Export, c: Client, n: nat)
    requires !Supported(c)
    ensures Passes(e, c, n).Again?
  {
    if c.phase == ZeroReceived {
      UnknownOptionSpins(e, c, n);
    } else if n > 0 {
      var d := Pass(e, c).client;
      assert d == c.(phase := ZeroReceived, input := c.input[4..]) && Pass(e, c).Again?;
      assert d.input != [] && !Supported(d);
      hide Pass, Supported;
      UnknownOptionSpins(e, d, n - 1);
    }
  }

  /** The next pass is a READ that reaches past the end of the disk: its loop waits for bytes for ever. */
  predicate WildRead(e: Export, c: Client) {
    && c.phase == DataPushing && |c.input| >= REQ_HEADER && Field(c.input, 0, 4) == REQUEST_MAGIC
    && Field(c.input, 4, 4) == CMD_READ && Field(c.input, 16, 8) <= e.seekLimit && Field(c.input, 24, 4) > 0
    && Field(c.input, 16, 8) + Field(c.input, 24, 4) > |c.disk|
  }

  /** The handler meets no such READ on its way through the input. */
  predicate NoWildRead(e: Export, c: Client)
    requires Supported(c)
    decreases PhaseRank(c.phase), |c.input|
  {
    c.input == [] || (
      && !WildRead(e, c)
      && match Pass(e, c)
         case Return(_) => true
         case Again(d) => PassProgress(e, c); NoWildRead(e, d))
  }

  /** The pass has returned, and not into the loop that never ends. */
  predicate Ended(o: Outcome) {
    o.Return? && o.client.phase != Stalled
  }

  lemma StallsIff(e: Export, c: Client)
    requires c.phase != Stalled
    ensures Pass(e, c).client.phase == Stalled <==> WildRead(e, c)
    ensures WildRead(e, c) ==> Pass(e, c).Return?
  {
  }

  lemma {:induction false} TameReturns(e: Export, c: Client) returns (n: nat)
    requires Supported(c) && c.input != [] && c.phase != Stalled && NoWildRead(e, c)
    ensures Ended(Passes(e, c, n))
    decreases PhaseRank(c.phase), |c.input|
  {
    hide Pass, Supported, WildRead;
    n := 0;
    StallsIff(e, c);
    if Pass(e, c).Again? {
      PassProgress(e, c);
      var d := Pass(e, c).client;
      if d.input != [] {
        n := TameReturns(e, d);
      }
    }
    n := n + 1;
  }

  lemma {:induction false} WildNeverReturns(e: Export, c: Client, n: nat)
    requires Supported(c) && c.input != [] && c.phase != Stalled && !NoWildRead(e, c)
    ensures !Ended(Passes(e, c, n))
    decreases n
  {
    hide Pass, Supported, WildRead;
    if n > 0 {
      StallsIff(e, c);
      if Pass(e, c).Again? {
        PassProgress(e, c);
        var d := Pass(e, c).client;
        assert d.input != [];
        WildNeverReturns(e, d, n - 1);
      }
    }
  }

  /** On every input, in every phase, the handler returns if and only if the input uses no other
      option and no READ it meets reaches past the end of the disk. */
  lemma {:induction false} ReturnsIff(e: Export, c: Client)
    requires c.input != [] && c.phase != Stalled
    ensures Supported(c) && NoWildRead(e, c) <==> exists n: nat :: Ended(Passes(e, c, n))
  {
    hide Supported, Passes, NoWildRead;
    if !Supported(c) {
      forall n: nat ensures !Ended(Passes(e, c, n)) {
        UnsupportedNeverReturns(e, c, n);
      }
    } else if NoWildRead(e, c) {
      var n := TameReturns(e, c);
    } else {
      forall n: nat ensures !Ended(Passes(e, c, n)) {
        WildNeverReturns(e, c, n);
      }
    }
  }

  /** The handler function ends in the absorbing phase exactly then. */
  lemma {:induction false} StalledIff(e: Export, c: Client)
    requires Supported(c) && c.phase != Stalled
    ensures Handle(e, c).phase == Stalled <==> !NoWildRead(e, c)
    decreases PhaseRank(c.phase), |c.input|
  {
    hide Pass, Supported, WildRead;
    if c.input != [] {
      StallsIff(e, c);
      if Pass(e, c).Again? {
        PassProgress(e, c);
        StalledIff(e, Pass(e, c).client);
      }
    }
  }

  // ---------------------------------------------------------------- splitting

  function More(c: Client, bytes: seq<Byte>): Client {
    c.(input := c.input + bytes)
  }

  /** Everything anybody can observe: once disconnected, unread input no longer matters. */
  ghost predicate Same(c: Client, d: Client) {
    c == d || (c.phase == Disconnected && d == c.(input := d.input))
  }

  lemma {:induction false} FieldOfMore(b: seq<Byte>, x: seq<Byte>, at: nat, n: nat)
    requires at + n <= |b|
    ensures Field(b + x, at, n) == Field(b, at, n)
  {
    assert (b + x)[at..at + n] == b[at..at + n];
  }

  lemma {:induction false} SupportedPrefix(c: Client, x: seq<Byte>)
    requires Supported(More(c, x))
    ensures Supported(c)
  {
    var b := c.input;
    match c.phase
    case HandshakeSent =>
      if |b| >= 4 + OPT_HEADER {
        FieldOfMore(b, x, 0, 4);
        assert (b + x)[4..] == b[4..] + x;
        FieldOfMore(b[4..], x, 0, 8);
        FieldOfMore(b[4..], x, 8, 4);
      }
    case ZeroReceived =>
      if |b| >= OPT_HEADER {
        FieldOfMore(b, x, 0, 8);
        FieldOfMore(b, x, 8, 4);
      }
    case _ =>
  }

  lemma DropOfMore(b: seq<Byte>, x: seq<Byte>, n: nat)
    requires n <= |b|
    ensures (b + x)[n..] == b[n..] + x && (b + x)[..n] == b[..n]
  {
  }

  lemma {:induction false} HandshakeOfMore(c: Client, x: seq<Byte>)
    requires ZeroHandshake(c).Again?
    ensures ZeroHandshake(More(c, x)) == Again(More(ZeroHandshake(c).client, x))
  {
    FieldOfMore(c.input, x, 0, 4);
    DropOfMore(c.input, x, 4);
  }

  lemma {:induction false} OptHeaderOfMore(e: Export, c: Client, x: seq<Byte>)
    requires OptHeader(e, c).Again?
    ensures OptHeader(e, More(c, x)) == Again(More(OptHeader(e, c).client, x))
  {
    var b := c.input;
    FieldOfMore(b, x, 0, 8);
    FieldOfMore(b, x, 8, 4);
    FieldOfMore(b, x, 12, 4);
    assert (b + x)[8..12] == b[8..12];
    DropOfMore(b, x, OPT_HEADER);
    var len := Field(b, 12, 4);
    if |b| >= OPT_HEADER + len {
      DropOfMore(b[OPT_HEADER..], x, len);
    }
  }

  lemma {:induction false} RequestFields(c: Client, x: seq<Byte>)
    requires |c.input| >= REQ_HEADER
    ensures var b, m := c.input, More(c, x).input;
            && Field(m, 0, 4) == Field(b, 0, 4) && Field(m, 4, 4) == Field(b, 4, 4)
            && Field(m, 8, 8) == Field(b, 8, 8) && Field(m, 16, 8) == Field(b, 16, 8)
            && Field(m, 24, 4) == Field(b, 24, 4)
  {
    FieldOfMore(c.input, x, 0, 4);
    FieldOfMore(c.input, x, 4, 4);
    FieldOfMore(c.input, x, 8, 8);
    FieldOfMore(c.input, x, 16, 8);
    FieldOfMore(c.input, x, 24, 4);
  }

  lemma {:induction false} WriteOfMore(e: Export, c: Client, x: seq<Byte>, handle: nat, offset: nat, length: nat)
    requires REQ_HEADER <= |c.input| && WriteRequest(e, c, handle, offset, length).Again?
    ensures WriteRequest(e, More(c, x), handle, offset, length)
            == Again(More(WriteRequest(e, c, handle, offset, length).client, x))
  {
    var b := c.input;
    assert (b + x)[REQ_HEADER..REQ_HEADER + length] == b[REQ_HEADER..REQ_HEADER + length];
    DropOfMore(b, x, REQ_HEADER + length);
  }

  lemma {:induction false} RequestOfMore(e: Export, c: Client, x: seq<Byte>)
    requires Request(e, c).Again?
    ensures Request(e, More(c, x)) == Again(More(Request(e, c).client, x))
  {
    var b := c.input;
    RequestFields(c, x);
    DropOfMore(b, x, REQ_HEADER);
    if Field(b, 4, 4) == CMD_WRITE {
      WriteOfMore(e, c, x, Field(b, 8, 8), Field(b, 16, 8), Field(b, 24, 4));
    }
  }

  /** Progress does not depend on bytes that have not arrived yet. */
  lemma {:induction false} PassOfMore(e: Export, c: Client, x: seq<Byte>)
    requires Pass(e, c).Again?
    ensures Pass(e, More(c, x)) == Again(More(Pass(e, c).client, x))
  {
    match c.phase
    case HandshakeSent => HandshakeOfMore(c, x);
    case ZeroReceived => OptHeaderOfMore(e, c, x);
    case DataPushing => RequestOfMore(e, c, x);
  }

  /** A pass that returns leaves the client alone, or has reached an absorbing state, which
      it also reaches when more bytes are there. */
  lemma {:induction false} ReturnOfMore(e: Export, c: Client, x: seq<Byte>)
    requires Pass(e, c).Return?
    ensures var d := Pass(e, c).client;
            d == c
            || (d.phase == Disconnected && Pass(e, More(c, x)).Return? && Same(d, Pass(e, More(c, x)).client))
            || (d.phase == Stalled && Pass(e, More(c, x)) == Return(More(d, x)))
  {
    if c.phase == DataPushing && |c.input| >= REQ_HEADER {
      RequestFields(c, x);
    }
  }

  /** Handling some bytes now and the rest later is handling them all at once. */
  lemma {:induction false} HandleSplit(e: Export, c: Client, x: seq<Byte>)
    requires Supported(More(c, x))
    ensures Supported(c) && Supported(More(Handle(e, c), x))
    ensures Same(Handle(e, More(Handle(e, c), x)), Handle(e, More(c, x)))
    decreases PhaseRank(c.phase), |c.input|
  {
    SupportedPrefix(c, x);
    if c.input == [] {
    } else if Pass(e, c).Again? {
      var d := Pass(e, c).client;
      PassProgress(e, c);
      PassOfMore(e, c, x);
      PassProgress(e, More(c, x));
      HandleSplit(e, d, x);
      HandleStep(e, More(c, x));
    } else {
      ReturnOfMore(e, c, x);
      AbsorbingHandle(e, More(Pass(e, c).client, x));
    }
  }

  lemma {:induction false} HandleStep(e: Export, c: Client)
    requires Supported(c) && Pass(e, c).Again? && c.input != []
    ensures Supported(Pass(e, c).client) && Handle(e, c) == Handle(e, Pass(e, c).client)
  {
    PassProgress(e, c);
  }

  lemma AbsorbingHandle(e: Export, c: Client)
    ensures c.phase == Disconnected || c.phase == Stalled ==> Handle(e, c) == c
  {
  }

  function Flatten(chunks: seq<seq<Byte>>): seq<Byte> {
    if chunks == [] then [] else chunks[0] + Flatten(chunks[1..])
  }

  /** One call of the handler for each arrival. */
  function Deliver(e: Export, c: Client, chunks: seq<seq<Byte>>): Client
    requires Supported(More(c, Flatten(chunks)))
    decreases chunks
  {
    if chunks == [] then c else
    DeliverSupported(e, c, chunks);
    Deliver(e, Handle(e, More(c, chunks[0])), chunks[1..])
  }

  lemma {:induction false} DeliverSupported(e: Export, c: Client, chunks: seq<seq<Byte>>)
    requires chunks != [] && Supported(More(c, Flatten(chunks)))
    ensures Supported(More(c, chunks[0]))
    ensures Supported(More(Handle(e, More(c, chunks[0])), Flatten(chunks[1..])))
  {
    MoreMore(c, chunks[0], Flatten(chunks[1..]));
    HandleSplit(e, More(c, chunks[0]), Flatten(chunks[1..]));
  }

  lemma {:induction false} MoreMore(c: Client, x: seq<Byte>, y: seq<Byte>)
    ensures More(More(c, x), y) == More(c, x + y)
  {
    assert (c.input + x) + y == c.input + (x + y);
  }

  /** A client waiting for input: nothing more to do with what it has. */
  ghost predicate Settled(e: Export, c: Client) {
    Supported(c) && Handle(e, c) == c
  }

  lemma {:induction false} HandleSettles(e: Export, c: Client)
    requires Supported(c)
    ensures Settled(e, Handle(e, c))
    decreases PhaseRank(c.phase), |c.input|
  {
    if c.input != [] {
      if Pass(e, c).Again? {
        HandleStep(e, c);
        PassProgress(e, c);
        HandleSettles(e, Pass(e, c).client);
      } else {
        AbsorbingHandle(e, Pass(e, c).client);
        ReturnOfMore(e, c, []);
      }
    }
  }

  /** However a supported byte stream is cut into arrivals, the client ends up with the same
      state, responses, disk, write queue and counters as if it had arrived in one piece. */
  lemma {:induction false} SplitInvariance(e: Export, c: Client, chunks: seq<seq<Byte>>)
    requires Settled(e, c) && Supported(More(c, Flatten(chunks)))
    ensures Same(Deliver(e, c, chunks), Handle(e, More(c, Flatten(chunks))))
    decreases chunks
  {
    if chunks == [] {
      assert More(c, []) == c;
    } else {
      var x, rest := chunks[0], Flatten(chunks[1..]);
      DeliverSupported(e, c, chunks);
      MoreMore(c, x, rest);
      var d := Handle(e, More(c, x));
      HandleSettles(e, More(c, x));
      SplitInvariance(e, d, chunks[1..]);
      HandleSplit(e, More(c, x), rest);
    }
  }
}
