/**
 From the block device to the inference engine: every write the NBD server accepts is pushed
 on the Redis list `writequeue` as two items, and redis_async_write_dequeue pops them at the
 other end. Replaying what is popped rebuilds the disk.
 */
module WriteLog {
  import opened Bytes
  import opened NbdSpec

  datatype DiskWrite = DiskWrite(offset: nat, data: seq<Byte>)

  // ---------------------------------------------------------------- writes of a run

  /** The write the next pass takes from the input, if it takes one. */
  function TriedOf(c: Client): seq<DiskWrite> {
    if c.phase == DataPushing && |c.input| >= REQ_HEADER && Field(c.input, 0, 4) == REQUEST_MAGIC
       && Field(c.input, 4, 4) == CMD_WRITE && |c.input| >= REQ_HEADER + Field(c.input, 24, 4)
    then [DiskWrite(Field(c.input, 16, 8), c.input[REQ_HEADER..REQ_HEADER + Field(c.input, 24, 4)])]
    else []
  }

  /** The write the next pass performs: one whose seek succeeds. */
  function WriteOf(e: Export, c: Client): seq<DiskWrite> {
    var w := TriedOf(c);
    if w == [] || w[0].offset > e.seekLimit then [] else w
  }

  predicate IsTrim(c: Client) {
    c.phase == DataPushing && |c.input| >= REQ_HEADER && Field(c.input, 0, 4) == REQUEST_MAGIC
    && Field(c.input, 4, 4) == CMD_TRIM
  }

  /** The writes accepted while the handler works through the input, in order. */
  function Writes(e: Export, c: Client): seq<DiskWrite>
    requires Supported(c)
    decreases PhaseRank(c.phase), |c.input|
  {
    if c.input == [] then [] else
    match Pass(e, c)
    case Return(_) => []
    case Again(d) => PassProgress(e, c); WriteOf(e, c) + Writes(e, d)
  }

  /** The writes taken from the input, those whose seek fails included. */
  function Tried(e: Export, c: Client): seq<DiskWrite>
    requires Supported(c)
    decreases PhaseRank(c.phase), |c.input|
  {
    if c.input == [] then [] else
    match Pass(e, c)
    case Return(_) => []
    case Again(d) => PassProgress(e, c); TriedOf(c) + Tried(e, d)
  }

  predicate NoTrim(e: Export, c: Client)
    requires Supported(c)
    decreases PhaseRank(c.phase), |c.input|
  {
    c.input == [] ||
    match Pass(e, c)
    case Return(_) => true
    case Again(d) => PassProgress(e, c); !IsTrim(c) && NoTrim(e, d)
  }

  /** The disk after applying writes in order. */
  function Replay(disk: seq<Byte>, ws: seq<DiskWrite>): seq<Byte>
    decreases ws
  {
    if ws == [] then disk else Replay(WriteAt(disk, ws[0].offset, ws[0].data), ws[1..])
  }

  /** The list after LPUSHing sector and data of each write in order. */
  function Push(list: seq<seq<Byte>>, ws: seq<DiskWrite>): seq<seq<Byte>>
    decreases ws
  {
    if ws == [] then list
    else Push([ws[0].data] + ([ToLe(ws[0].offset / SECTOR_SIZE, 8)] + list), ws[1..])
  }

  function TotalBytes(ws: seq<DiskWrite>): nat {
    if ws == [] then 0 else |ws[0].data| + TotalBytes(ws[1..])
  }

  lemma AtMostOne(e: Export, c: Client)
    ensures WriteOf(e, c) == [] || (|WriteOf(e, c)| == 1 && WriteOf(e, c)[0].offset < SIGN_BIT)
  {
  }

  lemma {:induction false} PassWrites(e: Export, c: Client)
    requires Pass(e, c).Again? && !IsTrim(c)
    ensures var d := Pass(e, c).client;
            && d.disk == Replay(c.disk, WriteOf(e, c))
            && d.queue == Push(c.queue, WriteOf(e, c))
            && d.writeCount == c.writeCount + |TriedOf(c)|
            && d.writeBytes == c.writeBytes + TotalBytes(TriedOf(c))
  {
    var ws := TriedOf(c);
    if ws != [] {
      assert ws[1..] == [];
    }
  }

  lemma ReturnWrites(e: Export, c: Client)
    requires Pass(e, c).Return?
    ensures var d := Pass(e, c).client;
            d.disk == c.disk && d.queue == c.queue && d.writeCount == c.writeCount && d.writeBytes == c.writeBytes
  {
  }

  lemma {:induction false} OneThenRest(disk: seq<Byte>, list: seq<seq<Byte>>, w: seq<DiskWrite>, rest: seq<DiskWrite>)
    requires |w| <= 1
    ensures Replay(disk, w + rest) == Replay(Replay(disk, w), rest)
    ensures Push(list, w + rest) == Push(Push(list, w), rest)
    ensures TotalBytes(w + rest) == TotalBytes(w) + TotalBytes(rest)
  {
    if w == [] {
      assert w + rest == rest;
    } else {
      assert (w + rest)[1..] == rest && w[1..] == [];
    }
  }

  /** Disk and queue after the handler returns are the accepted writes applied in order to each of
      them: nothing is lost, duplicated or reordered. The counters are those of the writes tried. */
  lemma {:induction false} HandleWrites(e: Export, c: Client)
    requires Supported(c) && NoTrim(e, c)
    ensures var d, ws := Handle(e, c), Writes(e, c);
            && d.disk == Replay(c.disk, ws)
            && d.queue == Push(c.queue, ws)
            && d.writeCount == c.writeCount + |Tried(e, c)|
            && d.writeBytes == c.writeBytes + TotalBytes(Tried(e, c))
    decreases PhaseRank(c.phase), |c.input|
  {
    if c.input != [] {
      if Pass(e, c).Again? {
        var d := Pass(e, c).client;
        PassProgress(e, c);
        PassWrites(e, c);
        HandleStep(e, c);
        HandleWrites(e, d);
        OneThenRest(c.disk, c.queue, WriteOf(e, c), Writes(e, d));
        OneThenRest(c.disk, c.queue, TriedOf(c), Tried(e, d));
      } else {
        ReturnWrites(e, c);
      }
    }
  }

  // ---------------------------------------------------------------- the list

  /** The two items of each write, in the order they are pushed. */
  function Items(ws: seq<DiskWrite>): (r: seq<seq<Byte>>)
    ensures |r| == 2 * |ws|
  {
    if ws == [] then [] else [ToLe(ws[0].offset / SECTOR_SIZE, 8), ws[0].data] + Items(ws[1..])
  }

  lemma {:induction false} ItemsAt(ws: seq<DiskWrite>, i: nat)
    requires i < |ws|
    ensures Items(ws)[2 * i] == ToLe(ws[i].offset / SECTOR_SIZE, 8) && Items(ws)[2 * i + 1] == ws[i].data
  {
    if i > 0 {
      ItemsAt(ws[1..], i - 1);
    }
  }

  function Reverse(s: seq<seq<Byte>>): (r: seq<seq<Byte>>)
    ensures |r| == |s|
  {
    if s == [] then [] else Reverse(s[1..]) + [s[0]]
  }

  lemma Regroup(x: seq<seq<Byte>>, y: seq<seq<Byte>>, z: seq<seq<Byte>>)
    ensures x + (y + z) == x + y + z
  {
  }

  lemma {:induction false} PushIsReverse(list: seq<seq<Byte>>, ws: seq<DiskWrite>)
    ensures Reverse(Push(list, ws)) == Reverse(list) + Items(ws)
    decreases ws
  {
    hide Reverse, ToLe;
    if ws == [] {
      assert Reverse(list) + [] == Reverse(list);
    } else {
      var sector, data := ToLe(ws[0].offset / SECTOR_SIZE, 8), ws[0].data;
      var next := [data] + ([sector] + list);
      PushIsReverse(next, ws[1..]);
      ReverseCons(data, [sector] + list);
      ReverseCons(sector, list);
      assert Reverse(next) == Reverse(list) + [sector, data];
      Regroup(Reverse(list), [sector, data], Items(ws[1..]));
    }
  }

  lemma {:induction false} ReverseCons(x: seq<Byte>, s: seq<seq<Byte>>)
    ensures Reverse([x] + s) == Reverse(s) + [x]
  {
    assert ([x] + s)[1..] == s;
  }

  datatype ListEvent = LPush(item: seq<Byte>) | BrPop

  /** A list and what has been popped from it so far. */
  datatype ListRun = ListRun(list: seq<seq<Byte>>, popped: seq<seq<Byte>>)

  function ListStep(r: ListRun, ev: ListEvent): ListRun
    requires ev.BrPop? ==> r.list != []
  {
    match ev
    case LPush(item) => r.(list := [item] + r.list)
    case BrPop =>
      var n := |r.list| - 1;
      ListRun(r.list[..n], r.popped + [r.list[n]])
  }

  /** BRPOP blocks on an empty list, so in a run every pop finds an item. */
  ghost predicate Runs(r: ListRun, events: seq<ListEvent>, r': ListRun)
    decreases events
  {
    if events == [] then r' == r
    else (events[0].BrPop? ==> r.list != []) && Runs(ListStep(r, events[0]), events[1..], r')
  }

  function Pushed(events: seq<ListEvent>): seq<seq<Byte>> {
    if events == [] then []
    else (if events[0].LPush? then [events[0].item] else []) + Pushed(events[1..])
  }

  lemma {:induction false} ReverseSnoc(s: seq<seq<Byte>>)
    requires s != []
    ensures Reverse(s) == [s[|s| - 1]] + Reverse(s[..|s| - 1])
  {
    if |s| > 1 {
      ReverseSnoc(s[1..]);
      assert s[1..][..|s| - 2] == s[..|s| - 1][1..];
    } else {
      assert s[1..] == [] && s[..0] == [];
    }
  }

  /** The items popped so far followed by those still in the list, oldest first. */
  function Order(r: ListRun): seq<seq<Byte>> {
    r.popped + Reverse(r.list)
  }

  lemma {:induction false} FifoStep(r: ListRun, ev: ListEvent)
    requires ev.BrPop? ==> r.list != []
    ensures Order(ListStep(r, ev)) == Order(r) + (if ev.LPush? then [ev.item] else [])
  {
    match ev
    case LPush(item) => ReverseCons(item, r.list);
    case BrPop => ReverseSnoc(r.list);
  }

  /** First in, first out, however pushes and pops interleave. */
  lemma {:induction false} Fifo(r: ListRun, events: seq<ListEvent>, r': ListRun)
    requires Runs(r, events, r')
    ensures Order(r') == Order(r) + Pushed(events)
    decreases events
  {
    hide Order;
    if events != [] {
      var item := if events[0].LPush? then [events[0].item] else [];
      FifoStep(r, events[0]);
      Fifo(ListStep(r, events[0]), events[1..], r');
      assert (Order(r) + item) + Pushed(events[1..]) == Order(r) + (item + Pushed(events[1..]));
    }
  }

  /** While the server pushes its writes and the inference engine pops concurrently, the items
      popped are always a prefix of the writes: item 2i is the sector of write i and item
      2i + 1 its data. Pairs are never split or reordered. */
  lemma {:induction false} PairsStayTogether(ws: seq<DiskWrite>, events: seq<ListEvent>, r: ListRun, i: nat)
    requires Runs(ListRun([], []), events, r) && Pushed(events) <= Items(ws)
    requires 2 * i + 1 < |r.popped|
    ensures i < |ws|
    ensures r.popped[2 * i] == ToLe(ws[i].offset / SECTOR_SIZE, 8) && r.popped[2 * i + 1] == ws[i].data
  {
    Fifo(ListRun([], []), events, r);
    assert Order(r) == Pushed(events);
    assert r.popped <= Items(ws);
    ItemsAt(ws, i);
  }

  // ---------------------------------------------------------------- dequeuing

  datatype QueuedWrite = QueuedWrite(sector: nat, sectors: nat, data: seq<Byte>)

  /** What the consumer should see of a write. */
  function Queued(w: DiskWrite): QueuedWrite {
    QueuedWrite(w.offset / SECTOR_SIZE, |w.data| / SECTOR_SIZE, w.data)
  }

  /** The disk after a dequeued write: the consumer is told a number of sectors, not of bytes. */
  function Applied(disk: seq<Byte>, w: QueuedWrite): seq<Byte>
    requires w.sectors * SECTOR_SIZE <= |w.data|
  {
    WriteAt(disk, w.sector * SECTOR_SIZE, w.data[..w.sectors * SECTOR_SIZE])
  }

  /** Offset and length are whole sectors; a write of no bytes is no write. */
  predicate WholeSectors(w: DiskWrite) {
    w.data == [] || (w.offset % SECTOR_SIZE == 0 && |w.data| % SECTOR_SIZE == 0)
  }

  class WriteQueue {
    var list: seq<seq<Byte>>

    /** BRPOP writequeue 0, with an item already there. */
    method BlockingPop() returns (item: seq<Byte>)
      requires list != []
      modifies this
      ensures item == old(list)[|old(list)| - 1] && list == old(list)[..|old(list)| - 1]
    {
      item := list[|list| - 1];
      list := list[..|list| - 1];
    }

    /** redis_async_write_dequeue: pop the sector, give up (the process exits) if it is not
        eight bytes long, pop the data. */
    method Dequeue() returns (ok: bool, w: QueuedWrite)
      requires |list| >= 2
      modifies this
      ensures var n := |old(list)|; ok <==> |old(list)[n - 1]| == 8
      ensures var n := |old(list)|;
              ok ==> && w == QueuedWrite(Le(old(list)[n - 1]), |old(list)[n - 2]| / SECTOR_SIZE, old(list)[n - 2])
                     && list == old(list)[..n - 2]
    {
      var head := BlockingPop();
      if |head| != 8 {
        return false, QueuedWrite(0, 0, []);
      }
      var data := BlockingPop();
      ok, w := true, QueuedWrite(Le(head), |data| / SECTOR_SIZE, data);
    }
  }

  /** The oldest write is at the tail of the list, and its sector passes the length check. */
  lemma {:induction false} StackTail(ws: seq<DiskWrite>)
    requires ws != [] && ws[0].offset < SIGN_BIT
    ensures var list, n := Push([], ws), |Push([], ws)|;
            && 2 <= n && |list[n - 1]| == 8 && list[..n - 2] == Push([], ws[1..])
            && QueuedWrite(Le(list[n - 1]), |list[n - 2]| / SECTOR_SIZE, list[n - 2]) == Queued(ws[0])
  {
    PushIsStack(ws);
    PushIsStack(ws[1..]);
    SectorFits(ws[0].offset);
    assert Stack(ws) == Stack(ws[1..]) + [ws[0].data, ToLe(ws[0].offset / SECTOR_SIZE, 8)];
  }

  lemma {:induction false} SectorFits(offset: nat)
    requires offset < SIGN_BIT
    ensures Le(ToLe(offset / SECTOR_SIZE, 8)) == offset / SECTOR_SIZE
  {
    assert Radix(8) == 0x1_0000_0000_0000_0000 by {
      assert Radix(2) == 0x1_0000;
      assert Radix(4) == 0x1_0000_0000;
      assert Radix(6) == 0x1_0000_0000_0000;
    }
    LeToLe(offset / SECTOR_SIZE, 8);
  }

  /** The list, oldest write last. */
  function Stack(ws: seq<DiskWrite>): seq<seq<Byte>> {
    if ws == [] then [] else Stack(ws[1..]) + [ws[0].data, ToLe(ws[0].offset / SECTOR_SIZE, 8)]
  }

  lemma {:induction false} PushIsStack(ws: seq<DiskWrite>)
    ensures Push([], ws) == Stack(ws)
  {
    PushOnto([], ws);
    assert Stack(ws) + [] == Stack(ws);
  }

  lemma {:induction false} PushOnto(list: seq<seq<Byte>>, ws: seq<DiskWrite>)
    ensures Push(list, ws) == Stack(ws) + list
    decreases ws
  {
    if ws != [] {
      var sector, data := ToLe(ws[0].offset / SECTOR_SIZE, 8), ws[0].data;
      PushOnto([data] + ([sector] + list), ws[1..]);
      assert Stack(ws[1..]) + ([data] + ([sector] + list)) == Stack(ws) + list;
    } else {
      assert [] + list == list;
    }
  }

  /** Dequeue `n` writes in a row and replay them: the result is the disk after the first `n`
      writes the server accepted. */
  method ReplayFirst(q: WriteQueue, n: nat, initial: seq<Byte>, ghost ws: seq<DiskWrite>) returns (disk: seq<Byte>)
    requires n <= |ws| && q.list == Push([], ws)
    requires forall i :: 0 <= i < |ws| ==> ws[i].offset < SIGN_BIT
    modifies q
    ensures Aligned(ws[..n]) ==> disk == Replay(initial, ws[..n])
    ensures q.list == Push([], ws[n..])
  {
    hide Push, WriteAt, Replay, Le, ToLe, Applied, WholeSectors;
    disk := initial;
    var i := 0;
    assert Replay(initial, ws[..0]) == initial by {
      ReplayNone(initial, ws[..0]);
    }
    assert ws[0..] == ws;
    while i < n
      invariant 0 <= i <= n && q.list == Push([], ws[i..])
      invariant Aligned(ws[..i]) ==> disk == Replay(initial, ws[..i])
    {
      StackTail(ws[i..]);
      var ok, w := q.Dequeue();
      assert ws[i..][1..] == ws[i + 1..];
      ReplaySnoc(initial, ws[..i], ws[i]);
      assert ws[..i] + [ws[i]] == ws[..i + 1];
      if Aligned(ws[..i + 1]) {
        assert ws[..i + 1][i] == ws[i] && forall k :: 0 <= k < i ==> ws[..i + 1][k] == ws[..i][k];
        WholeIsApplied(ws[i], disk);
      }
      disk := Applied(disk, w);
      i := i + 1;
    }
  }

  lemma ReplayNone(disk: seq<Byte>, ws: seq<DiskWrite>)
    requires ws == []
    ensures Replay(disk, ws) == disk
  {
  }

  lemma {:induction false} ReplaySnoc(disk: seq<Byte>, ws: seq<DiskWrite>, w: DiskWrite)
    ensures Replay(disk, ws + [w]) == WriteAt(Replay(disk, ws), w.offset, w.data)
    decreases ws
  {
    if ws == [] {
      assert (ws + [w])[1..] == [];
    } else {
      assert (ws + [w])[1..] == ws[1..] + [w];
      ReplaySnoc(WriteAt(disk, ws[0].offset, ws[0].data), ws[1..], w);
    }
  }

  /** Every write is whole sectors at a whole sector. */
  ghost predicate Aligned(ws: seq<DiskWrite>) {
    forall i :: 0 <= i < |ws| ==> WholeSectors(ws[i])
  }

  lemma {:induction false} WholeIsApplied(w: DiskWrite, disk: seq<Byte>)
    requires WholeSectors(w)
    ensures Applied(disk, Queued(w)) == WriteAt(disk, w.offset, w.data)
  {
    assert w.data[..|w.data|] == w.data;
  }

  /** On the empty disk, what is applied tells offset and length apart. */
  lemma {:induction false} PartIsMisapplied(w: DiskWrite)
    requires !WholeSectors(w)
    ensures Applied([], Queued(w)) != WriteAt([], w.offset, w.data)
  {
    hide WriteAt;
    var part := w.data[..|w.data| / SECTOR_SIZE * SECTOR_SIZE];
    var at := w.offset / SECTOR_SIZE * SECTOR_SIZE;
    WriteAtBytes([], w.offset, w.data);
    if part == [] {
      WriteNothing([], at);
    } else {
      WriteAtBytes([], at, part);
      assert at + |part| < w.offset + |w.data|;
    }
  }

  lemma WriteNothing(disk: seq<Byte>, at: nat)
    ensures WriteAt(disk, at, []) == disk
  {
  }

  /** The queue carries sector numbers and whole sectors only, so a write is put back as it was made,
      on every disk, if and only if its offset and its length are multiples of the sector size. */
  lemma {:induction false} AlignmentIsNeeded(w: DiskWrite)
    ensures WholeSectors(w) <==> forall disk :: Applied(disk, Queued(w)) == WriteAt(disk, w.offset, w.data)
  {
    hide Applied, WriteAt;
    if WholeSectors(w) {
      forall disk ensures Applied(disk, Queued(w)) == WriteAt(disk, w.offset, w.data) {
        WholeIsApplied(w, disk);
      }
    } else {
      PartIsMisapplied(w);
    }
  }

  // ---------------------------------------------------------------- server and engine together

  /** The NBD server, the list and the inference engine's end of it. `delivered` counts the items of
      the server's queue that have reached the list; `popped` those the engine has taken; `head` is a
      sector popped whose data has not been; `shadow` is a copy of the initial disk on which the engine
      replays. `accepted` and `disks` record the server's run: the writes, and the client's disk after
      each of them. */
  datatype System = System(client: Client, delivered: nat, list: seq<seq<Byte>>, popped: seq<seq<Byte>>,
                           head: Option<seq<Byte>>, done: nat, shadow: seq<Byte>,
                           accepted: seq<DiskWrite>, disks: seq<seq<Byte>>)

  datatype Move = Arrive(bytes: seq<Byte>) | ServerPass | Deliver | Pop

  function Start(c: Client): System {
    System(c, 0, [], [], None, 0, c.disk, [], [c.disk])
  }

  /** One move of one party; None where it has to wait, at a TRIM, or when the engine gives up on an
      item that is no sector number. */
  function Moved(e: Export, s: System, m: Move): Option<System> {
    match m
    case Arrive(bytes) => Some(s.(client := More(s.client, bytes)))
    case ServerPass =>
      if s.client.input == [] || IsTrim(s.client) then None else
      var next := Pass(e, s.client);
      var w := if next.Again? then WriteOf(e, s.client) else [];
      Some(s.(client := next.client, accepted := s.accepted + w,
              disks := if w == [] then s.disks else s.disks + [next.client.disk]))
    case Deliver =>
      if s.delivered >= |s.client.queue| then None
      else Some(s.(list := [Reverse(s.client.queue)[s.delivered]] + s.list, delivered := s.delivered + 1))
    case Pop =>
      if s.list == [] then None else
      var n := |s.list| - 1;
      var item := s.list[n];
      var t := s.(list := s.list[..n], popped := s.popped + [item]);
      match s.head
      case None => if |item| == 8 then Some(t.(head := Some(item))) else None
      case Some(sector) =>
        Some(t.(head := None, done := s.done + 1,
                shadow := Applied(s.shadow, QueuedWrite(Le(sector), |item| / SECTOR_SIZE, item))))
  }

  function Play(e: Export, s: System, moves: seq<Move>): Option<System>
    decreases moves
  {
    if moves == [] then Some(s) else
    match Moved(e, s, moves[0])
    case None => None
    case Some(t) => Play(e, t, moves[1..])
  }

  /** The record is the server's: each disk is the one before it with the next write applied, the last
      is the client's, and the client's queue holds the items of the writes. */
  ghost predicate Server(s: System) {
    && |s.disks| == |s.accepted| + 1 && s.disks[|s.accepted|] == s.client.disk
    && (forall i :: 0 <= i < |s.accepted| ==> s.disks[i + 1] == WriteAt(s.disks[i], s.accepted[i].offset, s.accepted[i].data))
    && Reverse(s.client.queue) == Items(s.accepted)
    && (forall i :: 0 <= i < |s.accepted| ==> s.accepted[i].offset < SIGN_BIT)
  }

  /** What has been popped and what is in the list is, in order, what has been delivered. */
  ghost predicate Channel(s: System) {
    && s.delivered <= 2 * |s.accepted|
    && Order(ListRun(s.list, s.popped)) == Items(s.accepted)[..s.delivered]
    && |s.popped| == 2 * s.done + (if s.head.Some? then 1 else 0)
    && (s.head.Some? ==> s.head.value == s.popped[2 * s.done])
  }

  ghost predicate Engine(s: System) {
    s.done <= |s.accepted| && s.done < |s.disks| && s.shadow == s.disks[s.done]
  }

  ghost predicate SystemInv(s: System) {
    Server(s) && Channel(s) && (Aligned(s.accepted) ==> Engine(s))
  }

  lemma {:induction false} ItemsOf(a: seq<DiskWrite>, b: seq<DiskWrite>)
    ensures Items(a + b) == Items(a) + Items(b)
  {
    hide ToLe;
    if a == [] {
      assert a + b == b;
    } else {
      ItemsOf(a[1..], b);
      assert (a + b)[0] == a[0] && (a + b)[1..] == a[1..] + b;
      Regroup([ToLe(a[0].offset / SECTOR_SIZE, 8), a[0].data], Items(a[1..]), Items(b));
    }
  }

  lemma {:induction false} PassKeepsServer(e: Export, s: System)
    requires SystemInv(s) && Moved(e, s, ServerPass).Some?
    ensures SystemInv(Moved(e, s, ServerPass).value)
  {
    hide Pass, Items, Order, WriteAt, Replay, Push, Reverse, WriteOf, TriedOf, IsTrim, WholeSectors;
    var t := Moved(e, s, ServerPass).value;
    if Pass(e, s.client).Again? {
      AtMostOne(e, s.client);
      var w := WriteOf(e, s.client);
      PassWrites(e, s.client);
      PushIsReverse(s.client.queue, w);
      ItemsOf(s.accepted, w);
      assert t.accepted == s.accepted + w;
      assert Items(t.accepted)[..s.delivered] == Items(s.accepted)[..s.delivered];
      if w != [] {
        ReplaySnoc(s.client.disk, [], w[0]);
        ReplayNone(s.client.disk, []);
        assert w == [] + [w[0]];
      } else {
        ReplayNone(s.client.disk, w);
        assert t.accepted == s.accepted;
      }
      assert Aligned(t.accepted) ==> Aligned(s.accepted) by {
        assert forall i :: 0 <= i < |s.accepted| ==> s.accepted[i] == t.accepted[i];
      }
    } else {
      ReturnWrites(e, s.client);
      assert s.accepted + [] == s.accepted;
    }
  }

  lemma {:induction false} DeliverKeepsChannel(e: Export, s: System)
    requires SystemInv(s) && Moved(e, s, Deliver).Some?
    ensures SystemInv(Moved(e, s, Deliver).value)
  {
    hide Items, WriteAt, Order;
    var item := Reverse(s.client.queue)[s.delivered];
    FifoStep(ListRun(s.list, s.popped), LPush(item));
    assert Items(s.accepted)[..s.delivered + 1] == Items(s.accepted)[..s.delivered] + [item];
  }

  lemma {:induction false} PopKeepsEngine(e: Export, s: System)
    requires SystemInv(s) && s.list != []
    ensures Moved(e, s, Pop).Some? && SystemInv(Moved(e, s, Pop).value)
  {
    hide Items, WriteAt, Reverse, Le, ToLe, Applied, WholeSectors;
    var r := ListRun(s.list, s.popped);
    FifoStep(r, BrPop);
    ReverseSnoc(s.list);
    var item := s.list[|s.list| - 1];
    var k := |s.popped|;
    assert Order(r)[k] == item;
    assert Items(s.accepted)[..s.delivered][k] == Items(s.accepted)[k];
    ItemsAt(s.accepted, s.done);
    if s.head.Some? && Aligned(s.accepted) {
      assert Items(s.accepted)[..s.delivered][k - 1] == Order(r)[k - 1] == s.popped[k - 1];
      SectorFits(s.accepted[s.done].offset);
      WholeIsApplied(s.accepted[s.done], s.shadow);
    }
  }

  /** In every run of arrivals, handler passes, deliveries and pops, however they interleave, replaying
      the writes dequeued so far over the initial disk gives the client's disk right after as many
      accepted writes; a pop never meets an item of the wrong length. */
  lemma {:induction false} ReplayFollowsServer(e: Export, c: Client, moves: seq<Move>)
    requires c.queue == [] && Play(e, Start(c), moves).Some?
    ensures var s := Play(e, Start(c), moves).value;
            && s.done <= |s.accepted| && |s.disks| == |s.accepted| + 1 && s.disks[|s.accepted|] == s.client.disk
            && (s.list != [] ==> Moved(e, s, Pop).Some?)
            && (Aligned(s.accepted) ==> s.shadow == s.disks[s.done])
  {
    var s := Play(e, Start(c), moves).value;
    StartInv(c);
    PlayKeepsInv(e, Start(c), moves);
    DoneIsBounded(s);
    if s.list != [] {
      PopKeepsEngine(e, s);
    }
  }

  lemma StartInv(c: Client)
    requires c.queue == []
    ensures SystemInv(Start(c))
  {
  }

  lemma {:induction false} DoneIsBounded(s: System)
    requires SystemInv(s)
    ensures s.done <= |s.accepted|
  {
    hide Items, Reverse;
    assert |Order(ListRun(s.list, s.popped))| == |s.popped| + |s.list|;
  }

  lemma {:induction false} PlayKeepsInv(e: Export, s: System, moves: seq<Move>)
    requires SystemInv(s) && Play(e, s, moves).Some?
    ensures SystemInv(Play(e, s, moves).value)
    decreases moves
  {
    if moves != [] {
      MoveKeepsInv(e, s, moves[0]);
      hide SystemInv, Moved;
      PlayKeepsInv(e, Moved(e, s, moves[0]).value, moves[1..]);
    }
  }

  lemma {:induction false} MoveKeepsInv(e: Export, s: System, m: Move)
    requires SystemInv(s) && Moved(e, s, m).Some?
    ensures SystemInv(Moved(e, s, m).value)
  {
    match m
    case Arrive(_) =>
    case ServerPass => PassKeepsServer(e, s);
    case Deliver => DeliverKeepsChannel(e, s);
    case Pop => PopKeepsEngine(e, s);
  }
}
