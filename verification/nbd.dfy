/**
 The NBD connection as the server runs it (nbd.c): an object whose fields the handler updates
 while it drains the input buffer. Each method is proved against its function in NbdSpec.
 */
module Nbd {
  import opened Bytes
  import opened NbdSpec

  const MAGIC: nat := 0x4e42444d41474943
  const OLD_PROTOCOL: nat := 0x00420281861253

  class NbdClient {
    const export_: Export
    var phase: Phase
    var input: seq<Byte>
    var output: seq<Byte>
    var disk: seq<Byte>
    var queue: seq<seq<Byte>>
    var writeCount: nat
    var writeBytes: nat

    ghost function State(): Client
      reads this
    {
      Client(phase, input, output, disk, queue, writeCount, writeBytes)
    }

    /** nbd_new_conn: greet with the newstyle handshake and wait for the client's flags. */
    constructor NewStyle(e: Export, disk: seq<Byte>, queue: seq<seq<Byte>>)
      ensures export_ == e && Settled(e, State())
      ensures State() == Client(HandshakeSent, [], ToBe(MAGIC, 8) + ToBe(NEW_PROTOCOL, 8) + ToBe(1, 2), disk, queue, 0, 0)
    {
      export_ := e;
      phase := HandshakeSent;
      input := [];
      output := ToBe(MAGIC, 8) + ToBe(NEW_PROTOCOL, 8) + ToBe(1, 2);
      this.disk := disk;
      this.queue := queue;
      writeCount, writeBytes := 0, 0;
    }

    /** nbd_old_conn: the oldstyle handshake already carries the export, requests follow. */
    constructor OldStyle(e: Export, disk: seq<Byte>, queue: seq<seq<Byte>>)
      ensures export_ == e && Settled(e, State())
      ensures State() == Client(DataPushing, [],
                                ToBe(MAGIC, 8) + ToBe(OLD_PROTOCOL, 8) + ToBe(e.size, 8) + ToBe(0x2d, 4) + Zeros(124),
                                disk, queue, 0, 0)
    {
      export_ := e;
      phase := DataPushing;
      input := [];
      output := ToBe(MAGIC, 8) + ToBe(OLD_PROTOCOL, 8) + ToBe(e.size, 8) + ToBe(0x2d, 4) + Zeros(124);
      this.disk := disk;
      this.queue := queue;
      writeCount, writeBytes := 0, 0;
    }

    method Drain(n: nat)
      requires n <= |input|
      modifies this`input
      ensures input == old(input)[n..]
    {
      input := input[n..];
    }

    method Send(bytes: seq<Byte>)
      modifies this`output
      ensures output == old(output) + bytes
    {
      output := output + bytes;
    }

    /** True when the handler has to return. */
    method CheckZeroHandshake() returns (done: bool)
      modifies this`phase, this`input
      ensures ZeroHandshake(old(State())) == (if done then Return(State()) else Again(State()))
    {
      if |input| < 4 {
        return true;
      }
      if Be(input[0..4]) != 0 {
        phase := Disconnected;
        return false;
      }
      Drain(4);
      phase := ZeroReceived;
      return false;
    }

    method CheckExportName(nameLen: nat) returns (done: bool)
      requires OPT_HEADER <= |input|
      modifies this`phase, this`input, this`output
      ensures ExportName(export_, old(State()), nameLen) == (if done then Return(State()) else Again(State()))
    {
      if nameLen != |export_.name| {
        phase := Disconnected;
        return false;
      }
      if |input| < OPT_HEADER + nameLen {
        return true;
      }
      Drain(OPT_HEADER);
      if nameLen == 0 || input[..nameLen] != export_.name {
        phase := Disconnected;
        return false;
      }
      Send(ExportInfo(export_));
      phase := DataPushing;
      Drain(nameLen);
      return false;
    }

    method CheckOptHeader() returns (done: bool)
      modifies this`phase, this`input, this`output
      ensures OptHeader(export_, old(State())) == (if done then Return(State()) else Again(State()))
    {
      if |input| < OPT_HEADER {
        return true;
      }
      if Be(input[0..8]) == NEW_PROTOCOL {
        var option := Be(input[8..12]);
        if option == OPT_EXPORT_NAME {
          done := CheckExportName(Be(input[12..16]));
          return;
        } else if option == OPT_ABORT {
          phase := Disconnected;
          return false;
        } else {
          Send(UnsupportedReply(input[8..12]));
          return false;
        }
      }
      phase := Disconnected;
      return false;
    }

    method HandleRead(handle: nat, offset: nat, length: nat) returns (done: bool)
      requires REQ_HEADER <= |input|
      modifies this`phase, this`input, this`output
      ensures ReadRequest(export_, old(State()), handle, offset, length) == (if done then Return(State()) else Again(State()))
    {
      if offset > export_.seekLimit {
        Drain(REQ_HEADER);
        Send(Response(EINVAL, handle));
        Send(Zeros(length));
        return false;
      }
      if length > 0 && offset + length > |disk| {
        phase := Stalled;
        return true;
      }
      var data := if length == 0 then [] else disk[offset..offset + length];
      Drain(REQ_HEADER);
      Send(Response(0, handle));
      Send(data);
      return false;
    }

    /** Wait for the whole payload, write it to the disk, push sector and data. */
    method HandleWrite(handle: nat, offset: nat, length: nat) returns (done: bool)
      requires REQ_HEADER <= |input|
      modifies this
      ensures WriteRequest(export_, old(State()), handle, offset, length) == (if done then Return(State()) else Again(State()))
    {
      if |input| < REQ_HEADER + length {
        return true;
      }
      Drain(REQ_HEADER);
      var data := input[..length];
      assert data == old(input)[REQ_HEADER..REQ_HEADER + length];
      writeCount := writeCount + 1;
      writeBytes := writeBytes + length;
      var error := EINVAL;
      if offset <= export_.seekLimit {
        disk := WriteAt(disk, offset, data);
        queue := [ToLe(offset / 512, 8)] + queue;
        queue := [data] + queue;
        error := 0;
      }
      Drain(length);
      assert input == old(input)[REQ_HEADER + length..];
      Send(Response(error, handle));
      return false;
    }

    method HandleTrim(handle: nat, offset: nat, length: nat) returns (done: bool)
      requires REQ_HEADER <= |input|
      modifies this
      ensures TrimRequest(old(State()), handle, offset, length) == (if done then Return(State()) else Again(State()))
    {
      Drain(REQ_HEADER);
      if length == 0 || offset >= SIGN_BIT {
        Send(Response(EINVAL, handle));
      } else {
        disk := PunchHole(disk, offset, length);
        Send(Response(0, handle));
      }
      return false;
    }

    method HandleUnknown(length: nat) returns (done: bool)
      requires REQ_HEADER <= |input|
      modifies this
      ensures UnknownRequest(old(State()), length) == (if done then Return(State()) else Again(State()))
    {
      if REQ_HEADER + length <= |input| {
        Drain(REQ_HEADER + length);
      }
      phase := Disconnected;
      return true;
    }

    method CheckRequest() returns (done: bool)
      modifies this
      ensures Request(export_, old(State())) == (if done then Return(State()) else Again(State()))
    {
      if |input| < REQ_HEADER || Be(input[0..4]) != REQUEST_MAGIC {
        return true;
      }
      var command, handle := Be(input[4..8]), Be(input[8..16]);
      var offset, length := Be(input[16..24]), Be(input[24..28]);
      if command == CMD_READ {
        done := HandleRead(handle, offset, length);
      } else if command == CMD_WRITE {
        done := HandleWrite(handle, offset, length);
      } else if command == CMD_DISC {
        phase := Disconnected;
        Drain(REQ_HEADER);
        done := false;
      } else if command == CMD_FLUSH {
        Drain(REQ_HEADER);
        Send(Response(0, handle));
        done := false;
      } else if command == CMD_TRIM {
        done := HandleTrim(handle, offset, length);
      } else {
        done := HandleUnknown(length);
      }
    }

    /** nbd_client_handler. It terminates because every pass that does not return consumes
        input or advances the phase. */
    method ClientHandler()
      requires Supported(State())
      modifies this
      ensures State() == Handle(export_, old(State()))
    {
      while input != []
        invariant Supported(State()) && Handle(export_, State()) == Handle(export_, old(State()))
        decreases PhaseRank(phase), |input|
      {
        ghost var before := State();
        if Pass(export_, before).Again? {
          HandleStep(export_, before);
          PassProgress(export_, before);
        }
        var done := true;
        match phase {
          case HandshakeSent => done := CheckZeroHandshake();
          case ZeroReceived => done := CheckOptHeader();
          case DataPushing => done := CheckRequest();
          case Disconnected =>
          case Stalled =>
        }
        if done {
          return;
        }
      }
    }

    /** One arrival after another: the result is that of the whole stream in one piece. */
    method Receive(chunks: seq<seq<Byte>>)
      requires Settled(export_, State()) && Supported(More(State(), Flatten(chunks)))
      modifies this
      ensures Same(State(), Handle(export_, More(old(State()), Flatten(chunks))))
    {
      var i := 0;
      SplitInvariance(export_, State(), chunks);
      while i < |chunks|
        invariant 0 <= i <= |chunks| && Supported(More(State(), Flatten(chunks[i..])))
        invariant Deliver(export_, State(), chunks[i..]) == Deliver(export_, old(State()), chunks)
      {
        ghost var before := State();
        DeliverSupported(export_, before, chunks[i..]);
        assert chunks[i..][1..] == chunks[i + 1..];
        input := input + chunks[i];
        ClientHandler();
        i := i + 1;
      }
    }
  }
}
