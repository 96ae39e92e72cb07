/**
 The inference engine's view of Redis (redis_queue.c): the keys it uses, and one connection on
 which every command is answered in order.

 The pipelined setters only count their commands; the reply stays on the connection until
 somebody reads it. redis_flush_pipeline reads the outstanding replies, and most queries flush
 before they ask. redis_dequeue and redis_publish do not: what they read is the oldest unread
 reply, which is their own exactly when nothing was outstanding.
 */
module KvStores {
  import opened Bytes
  import RedisPipeline

  /** Value of a `sector:N` key: what a disk sector holds. */
  datatype Pointer =
    | FileData(start: nat, end: nat, file: nat)
    | Superblock(fs: nat)
    | MasterBoot(id: nat)
    | GroupDescriptors(id: nat)
    | InodeTable(id: nat)
    | Bitmap(id: nat)
    | ExtentBlock(id: nat)
    | Directory(id: nat)

  /** The file metadata kept in the hash `file:N`, in the order the engine compares it. */
  datatype FieldName = IsDir | Size | Mode | LinkCount | Uid | Gid | Atime | Mtime | Ctime

  /** What the engine reads from an on-disk inode. */
  datatype Inode = Inode(mode: nat, uid: nat, size: nat, atime: nat, ctime: nat, mtime: nat, gid: nat, links: nat)
  {
    function Field(name: FieldName): nat {
      match name
      case IsDir => mode / 0x4000 % 2
      case Size => size
      case Mode => mode
      case LinkCount => links
      case Uid => uid
      case Gid => gid
      case Atime => atime
      case Mtime => mtime
      case Ctime => ctime
    }
  }

  type Metadata = map<(nat, FieldName), nat>

  datatype Event =
    | FieldEvent(file: nat, field: FieldName, before: nat, after: nat)
    | DataEvent(file: nat, start: nat, end: nat, bytes: seq<Byte>)

  datatype Reply = Status | Integer(n: int) | Str(bytes: seq<Byte>) | Nil

  /** How many of these replies carry a queued write. */
  function Strings(rs: seq<Reply>): nat {
    if rs == [] then 0 else (if rs[0].Str? then 1 else 0) + Strings(rs[1..])
  }

  lemma {:induction false} StringsAppend(rs: seq<Reply>, r: Reply)
    ensures Strings(rs + [r]) == Strings(rs) + (if r.Str? then 1 else 0)
  {
    if rs == [] {
      assert (rs + [r])[1..] == [];
    } else {
      StringsAppend(rs[1..], r);
      assert (rs + [r])[1..] == rs[1..] + [r];
    }
  }

  /** The metadata after the events published so far, applied in order to `m`. */
  function Fold(m: Metadata, events: seq<Event>): Metadata {
    if events == [] then m else
    var n := |events| - 1;
    var prefix := Fold(m, events[..n]);
    match events[n]
    case FieldEvent(file, field, _, after) => prefix[(file, field) := after]
    case DataEvent(_, _, _, _) => prefix
  }

  /** Every field event's old value is the value the events before it leave, if they leave one. */
  ghost predicate Chained(m: Metadata, events: seq<Event>) {
    events == [] ||
    (var n := |events| - 1;
     && Chained(m, events[..n])
     && (events[n].FieldEvent? ==>
           var key := (events[n].file, events[n].field);
           key in Fold(m, events[..n]) ==> Fold(m, events[..n])[key] == events[n].before))
  }

  /** The field events among the events, in order. */
  function FieldsOf(events: seq<Event>): seq<Event> {
    if events == [] then [] else
    var n := |events| - 1;
    FieldsOf(events[..n]) + (if events[n].FieldEvent? then [events[n]] else [])
  }

  /** A sector that holds inodes. */
  predicate IsTable(sectors: map<nat, Pointer>, sector: nat) {
    sector in sectors && sectors[sector].InodeTable?
  }

  /** A file has all nine fields. */
  ghost predicate Complete(m: Metadata, file: nat) {
    AllFieldsIn(m.Keys, file)
  }

  ghost predicate AllFieldsIn(keys: set<(nat, FieldName)>, file: nat) {
    forall name: FieldName :: (file, name) in keys
  }

  /** Every file in the list of an inode table has an offset and all its fields. */
  ghost predicate Listed(files: map<nat, seq<nat>>, offsets: map<nat, nat>, keys: set<(nat, FieldName)>) {
    forall t, f :: t in files && f in files[t] ==> f in offsets && AllFieldsIn(keys, f)
  }

  /** A list entry read back as an unsigned number: a hole reads as 2^64 - 1. */
  function AsSector(entry: int): nat {
    if entry >= 0 then entry else entry % TWO64
  }

  ghost predicate ListsApart(sectors: map<nat, Pointer>, lists: map<nat, seq<int>>, garbage: set<nat>) {
    && !IsTable(sectors, 0) && !IsTable(sectors, AsSector(-1)) && (forall x :: x in garbage ==> !IsTable(sectors, x))
    && forall f, e :: f in lists && e in lists[f] ==> !IsTable(sectors, AsSector(e))
  }

  class KvStore {
    var sectors: map<nat, Pointer>            // sector:N
    var queued: map<nat, seq<Byte>>           // qsector:N, unexplained writes
    var metadata: Metadata                    // file:N
    var inodeOffset: map<nat, nat>            // file:N inode_offset
    var fileSectors: map<nat, seq<int>>       // filesectors:N, holes are -1
    var files: map<nat, seq<nat>>             // files:N
    var extents: map<nat, seq<nat>>           // extents:N
    var extentFile: map<nat, nat>             // extent:N file
    var published: seq<Event>
    var pending: seq<Reply>                   // replies on the connection, oldest first
    var outstanding: nat                      // outstanding_pipelined_cmds
    const garbage: set<nat>                   // what an uninitialised sector variable may hold
    ghost const initial: Metadata             // metadata when the engine started
    ghost var latest: map<nat, Inode>         // last inode diffed for each file

    /** A store holding an index, on a fresh connection. */
    constructor (sectors: map<nat, Pointer>, metadata: Metadata, inodeOffset: map<nat, nat>,
                 fileSectors: map<nat, seq<int>>, files: map<nat, seq<nat>>, extents: map<nat, seq<nat>>,
                 extentFile: map<nat, nat>, garbage: set<nat>)
      ensures Valid() && Fuel() == 0 && initial == metadata && published == []
      ensures this.sectors == sectors && this.metadata == metadata && this.inodeOffset == inodeOffset
      ensures this.fileSectors == fileSectors && this.files == files && this.extents == extents && this.extentFile == extentFile
      ensures this.garbage == garbage && queued == map[] && pending == [] && latest == map[]
    {
      this.garbage := garbage;
      this.sectors, this.metadata, this.inodeOffset, this.fileSectors := sectors, metadata, inodeOffset, fileSectors;
      this.files, this.extents, this.extentFile := files, extents, extentFile;
      queued, published, pending, outstanding := map[], [], [], 0;
      initial, latest := metadata, map[];
    }

    /** The counter is the number of unread replies, below the pipeline limit between calls. */
    ghost predicate Connected()
      reads this`pending, this`outstanding
    {
      |pending| == outstanding && outstanding < RedisPipeline.PIPELINE_LIMIT
    }

    /** The published field events, folded onto the initial metadata, give the stored metadata;
        they chain; and what is stored of a diffed file is that of the last inode diffed for it. */
    ghost predicate Consistent()
      reads this`metadata, this`published, this`latest
    {
      && metadata == Fold(initial, published)
      && Chained(initial, published)
      && forall f, name :: f in latest && (f, name) in metadata ==> metadata[(f, name)] == latest[f].Field(name)
    }

    ghost predicate Valid()
      reads this
    {
      Connected() && Consistent()
    }

    /** Nothing is missing from what the crawler writes for the files of the inode tables. */
    ghost predicate Present()
      reads this`files, this`metadata, this`inodeOffset
    {
      Listed(files, inodeOffset, metadata.Keys)
    }

    /** No sector a file's list names, and none an uninitialised variable may name, is an inode
        table. */
    ghost predicate Apart()
      reads this`sectors, this`fileSectors
    {
      ListsApart(sectors, fileSectors, garbage)
    }

    /** An index on which inode-table writes have their full effect. */
    ghost predicate Regular()
      reads this`files, this`metadata, this`inodeOffset, this`sectors, this`fileSectors
    {
      Apart() && Present()
    }

    /** Queued writes plus replies that still carry one: what recursion can feed on. */
    ghost function Fuel(): nat
      reads this`queued, this`pending
    {
      |queued.Keys| + Strings(pending)
    }

    function ListOf(file: nat): seq<int>
      reads this`fileSectors
    {
      if file in fileSectors then fileSectors[file] else []
    }

    // ---------------------------------------------------------------- the connection

    /** redisGetReply: the oldest unread reply. */
    method GetReply() returns (r: Reply)
      requires pending != []
      modifies this`pending
      ensures r == old(pending)[0] && pending == old(pending)[1..]
      ensures Fuel() == old(Fuel()) - (if r.Str? then 1 else 0)
    {
      r := pending[0];
      pending := pending[1..];
    }

    /** redis_flush_pipeline */
    method Flush()
      requires Connected()
      modifies this`pending, this`outstanding
      ensures Connected() && pending == [] && Fuel() <= old(Fuel())
    {
      while outstanding != 0
        invariant |pending| == outstanding <= old(outstanding) && Fuel() <= old(Fuel())
        decreases outstanding
      {
        var r := GetReply();
        outstanding := outstanding - 1;
      }
    }

    /** Append a command and count it; flush when the pipeline is full. */
    method Pipeline(r: Reply)
      requires Connected() && !r.Str?
      modifies this`pending, this`outstanding
      ensures Connected() && Fuel() <= old(Fuel())
      ensures pending == old(pending) + [r] || pending == []
    {
      StringsAppend(pending, r);
      pending := pending + [r];
      outstanding := outstanding + 1;
      if outstanding >= RedisPipeline.PIPELINE_LIMIT {
        while outstanding != 0
          invariant |pending| == outstanding <= RedisPipeline.PIPELINE_LIMIT && Fuel() <= old(Fuel())
          decreases outstanding
        {
          var dropped := GetReply();
          outstanding := outstanding - 1;
        }
      }
    }

    /** redisCommand: append a command, then read one reply. It is the command's own reply
        exactly when nothing was outstanding. */
    method Command(own: Reply) returns (r: Reply)
      requires Connected()
      modifies this`pending
      ensures Connected()
      ensures r == (old(pending) + [own])[0] && pending == (old(pending) + [own])[1..]
      ensures Fuel() == old(Fuel()) + (if own.Str? then 1 else 0) - (if r.Str? then 1 else 0)
    {
      StringsAppend(pending, own);
      pending := pending + [own];
      r := GetReply();
    }

    // ---------------------------------------------------------------- pipelined setters

    method Enqueue(sector: nat, data: seq<Byte>)
      requires Connected()
      modifies this`queued, this`pending, this`outstanding
      ensures Connected() && queued == old(queued)[sector := data]
      ensures Fuel() <= old(Fuel()) + 1
      ensures sector in old(queued) ==> Fuel() <= old(Fuel())
    {
      assert (queued[sector := data]).Keys == queued.Keys + {sector};
      queued := queued[sector := data];
      Pipeline(Status);
    }

    method Unqueue(sector: nat)
      requires Connected()
      modifies this`queued, this`pending, this`outstanding
      ensures Connected() && queued == old(queued) - {sector} && Fuel() <= old(Fuel())
      ensures sector in old(queued) ==> Fuel() < old(Fuel())
    {
      assert (queued - {sector}).Keys == queued.Keys - {sector};
      queued := queued - {sector};
      Pipeline(Integer(1));
    }

    method SetPointer(sector: nat, p: Pointer)
      requires Connected()
      modifies this`sectors, this`pending, this`outstanding
      ensures Connected() && sectors == old(sectors)[sector := p] && Fuel() <= old(Fuel())
    {
      sectors := sectors[sector := p];
      Pipeline(Status);
    }

    method PushSector(file: nat, sector: int)
      requires Connected()
      modifies this`fileSectors, this`pending, this`outstanding
      ensures Connected() && Fuel() <= old(Fuel())
      ensures fileSectors == old(fileSectors)[file := old(ListOf(file)) + [sector]]
    {
      fileSectors := fileSectors[file := ListOf(file) + [sector]];
      Pipeline(Integer(|fileSectors[file]|));
    }

    /** LSET; an index past the end is refused and changes nothing. */
    method SetSector(file: nat, index: nat, sector: int)
      requires Connected()
      modifies this`fileSectors, this`pending, this`outstanding
      ensures Connected() && Fuel() <= old(Fuel())
      ensures index < |old(ListOf(file))| ==> fileSectors == old(fileSectors)[file := old(ListOf(file))[index := sector]]
      ensures index >= |old(ListOf(file))| ==> fileSectors == old(fileSectors)
    {
      if index < |ListOf(file)| {
        fileSectors := fileSectors[file := ListOf(file)[index := sector]];
      }
      Pipeline(Status);
    }

    method SetField(file: nat, name: FieldName, v: nat)
      requires Connected()
      modifies this`metadata, this`pending, this`outstanding
      ensures Connected() && metadata == old(metadata)[(file, name) := v] && Fuel() <= old(Fuel())
    {
      metadata := metadata[(file, name) := v];
      Pipeline(Integer(0));
    }

    method SetExtentFile(sector: nat, file: nat)
      requires Connected()
      modifies this`extentFile, this`pending, this`outstanding
      ensures Connected() && extentFile == old(extentFile)[sector := file] && Fuel() <= old(Fuel())
    {
      extentFile := extentFile[sector := file];
      Pipeline(Integer(1));
    }

    method PushExtent(file: nat, sector: nat)
      requires Connected()
      modifies this`extents, this`pending, this`outstanding
      ensures Connected() && Fuel() <= old(Fuel())
      ensures extents == old(extents)[file := (if file in old(extents) then old(extents)[file] else []) + [sector]]
    {
      extents := extents[file := (if file in extents then extents[file] else []) + [sector]];
      Pipeline(Integer(|extents[file]|));
    }

    /** LINSERT extents:N BEFORE <index>: the pivot is a bare number, which no element of the
        list is, so nothing is inserted. */
    method InsertExtentBefore(file: nat, pivot: nat, sector: nat)
      requires Connected()
      modifies this`pending, this`outstanding
      ensures Connected() && Fuel() <= old(Fuel())
    {
      Pipeline(Integer(-1));
    }

    // ---------------------------------------------------------------- queries

    /** redis_sector_lookup: flushes first, so the reply is its own. */
    method Lookup(sector: nat) returns (p: Option<Pointer>)
      requires Connected()
      modifies this`pending, this`outstanding
      ensures Connected() && pending == [] && Fuel() <= old(Fuel())
      ensures p == if sector in sectors then Some(sectors[sector]) else None
    {
      Flush();
      p := if sector in sectors then Some(sectors[sector]) else None;
    }

    /** redis_hash_field_get on a file; a missing field leaves the caller's variable as it was,
        which for the first file of a list is uninitialised. */
    method GetField(file: nat, name: FieldName) returns (v: nat)
      requires Connected()
      modifies this`pending, this`outstanding
      ensures Connected() && pending == [] && Fuel() <= old(Fuel())
      ensures (file, name) in metadata ==> v == metadata[(file, name)]
    {
      Flush();
      if (file, name) in metadata {
        v := metadata[(file, name)];
      } else {
        v := *;
      }
    }

    method GetInodeOffset(file: nat) returns (v: nat)
      requires Connected()
      modifies this`pending, this`outstanding
      ensures Connected() && pending == [] && Fuel() <= old(Fuel())
      ensures file in inodeOffset ==> v == inodeOffset[file]
    {
      Flush();
      if file in inodeOffset {
        v := inodeOffset[file];
      } else {
        v := *;
      }
    }

    method GetExtentFile(sector: nat) returns (v: nat)
      requires Connected()
      modifies this`pending, this`outstanding
      ensures Connected() && pending == [] && Fuel() <= old(Fuel())
      ensures sector in extentFile ==> v == extentFile[sector]
    {
      Flush();
      if sector in extentFile {
        v := extentFile[sector];
      } else {
        v := *;
      }
    }

    /** redis_list_len on a file's sector list */
    method ListLength(file: nat) returns (n: nat)
      requires Connected()
      modifies this`pending, this`outstanding
      ensures Connected() && pending == [] && Fuel() <= old(Fuel())
      ensures n == |ListOf(file)|
    {
      Flush();
      n := |ListOf(file)|;
    }

    /** The value of a sector variable that has not been set. */
    method Uninitialised() returns (v: nat)
      ensures v == 0 || v in garbage
    {
      v :| v in garbage + {0};
    }

    /** redis_last_file_sector; an empty list leaves the caller's variable, `v0`, alone. */
    method LastSector(file: nat, v0: nat) returns (v: nat)
      requires Connected()
      modifies this`pending, this`outstanding
      ensures Connected() && pending == [] && Fuel() <= old(Fuel())
      ensures v == if ListOf(file) == [] then v0 else AsSector(ListOf(file)[|ListOf(file)| - 1])
    {
      Flush();
      v := if ListOf(file) == [] then v0 else AsSector(ListOf(file)[|ListOf(file)| - 1]);
    }

    method FilesOf(table: nat) returns (r: seq<nat>)
      requires Connected()
      modifies this`pending, this`outstanding
      ensures Connected() && pending == [] && Fuel() <= old(Fuel())
      ensures r == if table in files then files[table] else []
    {
      Flush();
      r := if table in files then files[table] else [];
    }

    method ExtentsOf(file: nat) returns (r: seq<nat>)
      requires Connected()
      modifies this`pending, this`outstanding
      ensures Connected() && pending == [] && Fuel() <= old(Fuel())
      ensures r == if file in extents then extents[file] else []
    {
      Flush();
      r := if file in extents then extents[file] else [];
    }

    // ---------------------------------------------------------------- queries that do not flush

    /** redis_publish */
    method Publish(e: Event)
      requires Connected()
      modifies this`published, this`pending
      ensures Connected() && published == old(published) + [e] && Fuel() <= old(Fuel())
    {
      published := published + [e];
      var r := Command(Integer(1));
    }

    /** redis_dequeue: GET, then DEL. The key is gone afterwards in any case. The bytes returned
        come from the oldest unread reply: those queued for `sector` when nothing was
        outstanding, whatever reply stood first otherwise. Bytes come back only at the cost of
        one unit of fuel. */
    method Dequeue(sector: nat, max: nat) returns (data: seq<Byte>)
      requires Connected()
      modifies this`queued, this`pending
      ensures Connected() && queued == old(queued) - {sector}
      ensures data == DequeuedBytes(old(pending), if sector in old(queued) then Str(old(queued)[sector]) else Nil, max)
      ensures Fuel() <= old(Fuel())
      ensures data != [] ==> Fuel() < old(Fuel())
    {
      var own := if sector in queued then Str(queued[sector]) else Nil;
      var r := Command(own);
      data := if r.Str? && 0 < |r.bytes| <= max then r.bytes else [];
      assert (queued - {sector}).Keys == queued.Keys - {sector};
      queued := queued - {sector};
      var r2 := Command(Integer(1));
    }
  }

  /** The bytes redis_dequeue hands out when `pending` replies are unread and its own is `own`. */
  function DequeuedBytes(pending: seq<Reply>, own: Reply, max: nat): seq<Byte> {
    var r := (pending + [own])[0];
    if r.Str? && 0 < |r.bytes| <= max then r.bytes else []
  }

  /** redis_dequeue returns what was queued, whatever that was, if and only if no command was
      outstanding when it was called. */
  lemma {:induction false} DequeueIsOwnIffNothingOutstanding(pending: seq<Reply>, max: nat)
    requires max > 0
    ensures pending == [] <==>
              forall b: seq<Byte> :: 0 < |b| <= max ==> DequeuedBytes(pending, Str(b), max) == b
  {
    if pending != [] {
      assert (pending + [Str([0])])[0] == pending[0] && (pending + [Str([1])])[0] == pending[0];
      assert DequeuedBytes(pending, Str([0]), max) == DequeuedBytes(pending, Str([1]), max);
    }
  }

  /** Two queued blocks dequeued in a row behind two pipelined commands each, as the extent diff
      does: the second call returns the first block's bytes, the second block's are lost. */
  lemma {:induction false} BytesOfAnotherSector(first: seq<Byte>, second: seq<Byte>, max: nat)
    requires 0 < |first| <= max
    ensures var p0 := [Integer(1), Status];
            var p1 := (p0 + [Str(first), Integer(1)])[2..];
            var p2 := p1 + [Integer(2), Status];
            DequeuedBytes(p0, Str(first), max) == [] && DequeuedBytes(p2, Str(second), max) == first
  {
    var p0 := [Integer(1), Status];
    var p1 := (p0 + [Str(first), Integer(1)])[2..];
    assert p1 == [Str(first), Integer(1)];
  }
}
