/**
 The ext4 inference engine (deep_inspection.c): a write is matched against the sector index,
 metadata differences are published, and writes that could not be explained are queued until a
 later metadata change names their sector.

 The functions below call each other in a cycle: inspecting a write may diff extents, which
 reinspects queued writes. What bounds the recursion is KvStore.Fuel: every write that comes
 out of the queue uses up one unit, and only an inspected block can put one back.
 */
module Inference {
  import opened Bytes
  import opened KvStores
  import opened ExtentIndex

  const EXTENT_MAGIC: nat := 0xF30A
  const TWO48: nat := 0x1_0000_0000_0000

  const FIELDS: seq<FieldName> := [IsDir, Size, Mode, LinkCount, Uid, Gid, Atime, Mtime, Ctime]

  /** A little-endian field of a buffer; past its end C reads whatever follows, here zero. */
  function Read(b: seq<Byte>, at: nat, n: nat): nat {
    if at + n <= |b| then Le(b[at..at + n]) else 0
  }

  function InodeAt(b: seq<Byte>, at: nat): Inode {
    Inode(Read(b, at, 2), Read(b, at + 2, 2), Read(b, at + 108, 4) * TWO32 + Read(b, at + 4, 4),
          Read(b, at + 8, 4), Read(b, at + 12, 4), Read(b, at + 16, 4), Read(b, at + 24, 2), Read(b, at + 26, 2))
  }

  /** The test the source makes of a mode before it follows extents: bit 15 or 14 set, bit 13 clear. */
  predicate HasExtents(mode: nat) {
    var file, dir, other := mode / 0x8000 % 2 == 1, mode / 0x4000 % 2 == 1, mode / 0x2000 % 2 == 1;
    (file || dir) && !((dir && other) || (file && other))
  }

  function Entries(b: seq<Byte>): nat {
    if Read(b, 0, 2) == EXTENT_MAGIC then Read(b, 2, 2) else 0
  }

  function Depth(b: seq<Byte>): nat {
    if Read(b, 0, 2) == EXTENT_MAGIC then Read(b, 6, 2) else 0
  }

  function ExtentAt(b: seq<Byte>, k: nat): Extent {
    var at := 12 + 12 * k;
    Extent(Read(b, at, 4), Read(b, at + 4, 2), Read(b, at + 6, 2) * TWO48 + Read(b, at + 8, 4))
  }

  function LeafBlockAt(b: seq<Byte>, k: nat): nat {
    var at := 12 + 12 * k;
    Read(b, at + 8, 2) * TWO48 + Read(b, at + 4, 4)
  }

  /** The block numbers as the file system format defines them: 48 bits, the upper half at bit 32. */
  function FormatStart(b: seq<Byte>, k: nat): nat {
    var at := 12 + 12 * k;
    Read(b, at + 6, 2) * TWO32 + Read(b, at + 8, 4)
  }

  function FormatLeaf(b: seq<Byte>, k: nat): nat {
    var at := 12 + 12 * k;
    Read(b, at + 8, 2) * TWO32 + Read(b, at + 4, 4)
  }

  /** The source shifts the upper half by 48: its block numbers are the format's if and only if the
      upper half is zero, that is below 2^32. */
  lemma UpperHalfIff(b: seq<Byte>, k: nat)
    ensures ExtentAt(b, k).start == FormatStart(b, k) <==> Read(b, 12 + 12 * k + 6, 2) == 0
    ensures LeafBlockAt(b, k) == FormatLeaf(b, k) <==> Read(b, 12 + 12 * k + 8, 2) == 0
    ensures ExtentAt(b, k).start == FormatStart(b, k) <==> FormatStart(b, k) < TWO32
    ensures LeafBlockAt(b, k) == FormatLeaf(b, k) <==> FormatLeaf(b, k) < TWO32
  {
    var at := 12 + 12 * k;
    ReadBound(b, at + 8, 4);
    ReadBound(b, at + 4, 4);
    hide Read;
  }

  lemma ReadBound(b: seq<Byte>, at: nat, n: nat)
    ensures Read(b, at, n) < Radix(n)
    ensures Radix(4) == TWO32
  {
    assert Radix(2) == 0x1_0000;
    if at + n <= |b| {
      LeBound(b[at..at + n]);
    }
  }

  /** An extent at block 2^32 + 5, and an index entry for a leaf there, are read as block 2^48 + 5. */
  lemma UpperHalfMisread(b: seq<Byte>)
    requires |b| >= 24 && b[16..24] == [1, 0, 1, 0, 5, 0, 0, 0]
    ensures FormatStart(b, 0) == 0x1_0000_0005 && ExtentAt(b, 0).start == 0x1_0000_0000_0005
  {
    assert b[18..20] == b[16..24][2..4] == [1, 0] && b[20..24] == b[16..24][4..8] == [5, 0, 0, 0];
    LeSmall(1, [0]);
    LeSmall(5, [0, 0, 0]);
  }

  lemma LeafUpperHalfMisread(b: seq<Byte>)
    requires |b| >= 24 && b[16..24] == [5, 0, 0, 0, 1, 0, 0, 0]
    ensures FormatLeaf(b, 0) == 0x1_0000_0005 && LeafBlockAt(b, 0) == 0x1_0000_0000_0005
  {
    assert b[16..20] == b[16..24][0..4] == [5, 0, 0, 0] && b[20..22] == b[16..24][4..6] == [1, 0];
    LeSmall(1, [0]);
    LeSmall(5, [0, 0, 0]);
  }

  lemma {:induction false} LeSmall(v: Byte, zeros: seq<Byte>)
    requires forall i :: 0 <= i < |zeros| ==> zeros[i] == 0
    ensures Le([v] + zeros) == v
  {
    assert ([v] + zeros)[1..] == zeros;
    if zeros != [] {
      LeSmall(0, zeros[1..]);
      assert zeros == [0] + zeros[1..];
    }
  }

  /** The extents of a depth-0 node. */
  function Leaf(b: seq<Byte>): seq<Extent> {
    seq(Entries(b), k requires 0 <= k => ExtentAt(b, k))
  }

  /** The block size the engine needs: whole sectors, at least one. */
  ghost predicate Usable(g: Geometry) {
    g.blockSize >= SECTOR_SIZE && g.blockSize % SECTOR_SIZE == 0
  }

  /** Sectors per block. */
  function Step(g: Geometry): nat { g.blockSize / SECTOR_SIZE }

  lemma StepIs(g: Geometry)
    requires Usable(g)
    ensures Step(g) > 0 && Step(g) * SECTOR_SIZE == g.blockSize
  {
  }

  /** Blocks in a write of `sectors` sectors, the last one possibly partial. */
  ghost function Blocks(sectors: nat, step: nat): nat
    requires step > 0
  {
    if sectors == 0 then 0 else 1 + Blocks(if sectors <= step then 0 else sectors - step, step)
  }

  /** The part of the store that only moves forward. */
  datatype View = View(published: seq<Event>, sectors: map<nat, Pointer>, lists: map<nat, seq<int>>,
                       keys: set<(nat, FieldName)>)

  ghost function ViewOf(s: KvStore): View
    reads s`published, s`sectors, s`fileSectors, s`metadata
  {
    View(s.published, s.sectors, s.fileSectors, s.metadata.Keys)
  }

  /** Events are only ever appended, no stored field disappears, no sector becomes an inode table, and
      listed sectors stay apart from them. */
  ghost predicate Later(garbage: set<nat>, a: View, b: View) {
    && a.published <= b.published && a.keys <= b.keys
    && (forall x :: IsTable(b.sectors, x) ==> x in a.sectors && b.sectors[x] == a.sectors[x])
    && (ListsApart(a.sectors, a.lists, garbage) ==> ListsApart(b.sectors, b.lists, garbage))
  }

  lemma LaterTrans(garbage: set<nat>, a: View, b: View, c: View)
    requires Later(garbage, a, b) && Later(garbage, b, c)
    ensures Later(garbage, a, c)
  {
  }

  lemma LaterSame(garbage: set<nat>, a: View, b: View)
    requires a.published <= b.published && a.sectors == b.sectors && a.lists == b.lists && a.keys <= b.keys
    ensures Later(garbage, a, b)
  {
  }

  /** A sector pointed elsewhere than at a table, and a list that gains at most that sector or a hole. */
  lemma LaterPlaced(garbage: set<nat>, a: View, b: View, sector: nat, p: Pointer, file: nat)
    requires a.published <= b.published && !p.InodeTable? && b.sectors == a.sectors[sector := p] && b.keys == a.keys
    requires forall f :: f != file && f in b.lists ==> f in a.lists && b.lists[f] == a.lists[f]
    requires file in b.lists ==>
               forall e :: e in b.lists[file] ==> e == sector || e == HOLE || (file in a.lists && e in a.lists[file])
    ensures Later(garbage, a, b)
  {
  }

  lemma LaterHole(garbage: set<nat>, a: View, b: View, file: nat)
    requires a.published <= b.published && b.sectors == a.sectors && b.keys == a.keys
    requires b.lists == a.lists[file := (if file in a.lists then a.lists[file] else []) + [HOLE]]
    ensures Later(garbage, a, b)
  {
  }

  /** What inodes determine: the stored metadata, the last inode of each file and the field events. */
  datatype Record = Record(metadata: Metadata, latest: map<nat, Inode>, fields: seq<Event>)

  ghost function RecordOf(s: KvStore): Record
    reads s`metadata, s`latest, s`published
  {
    Record(s.metadata, s.latest, FieldsOf(s.published))
  }

  /** Everything the engine keeps about the disk. */
  datatype Shot = Shot(view: View, record: Record, queued: map<nat, seq<Byte>>, extents: map<nat, seq<nat>>,
                       extentFile: map<nat, nat>)

  ghost function ShotOf(s: KvStore): Shot
    reads s`published, s`sectors, s`fileSectors, s`metadata, s`latest, s`queued, s`extents, s`extentFile
  {
    Shot(ViewOf(s), RecordOf(s), s.queued, s.extents, s.extentFile)
  }

  /** Nothing but the queue has changed, and events have been appended. */
  ghost predicate SameShot(a: Shot, b: Shot) {
    && a.view.published <= b.view.published && b.view.sectors == a.view.sectors && b.view.lists == a.view.lists
    && b.extents == a.extents && b.extentFile == a.extentFile && b.record == a.record
  }

  twostate predicate SameIndex(s: KvStore)
    reads s
  {
    SameShot(old(ShotOf(s)), ShotOf(s))
  }

  /** A write taken from the write queue. */
  datatype BlockWrite = BlockWrite(sector: nat, sectors: nat, data: seq<Byte>)
  {
    ghost predicate Whole() { |data| >= sectors * SECTOR_SIZE }
  }

  function ListIn(lists: map<nat, seq<int>>, file: nat): seq<int> {
    if file in lists then lists[file] else []
  }

  /** Of the index, only what belongs to one file has changed: its list, its leaf blocks, which are
      only ever added, and pointers that are now to its data or leaf blocks. */
  ghost predicate OnlyFile(file: nat, a: Shot, b: Shot) {
    && b.record == a.record
    && (forall f :: f != file ==> ListIn(b.view.lists, f) == ListIn(a.view.lists, f))
    && (forall f :: f in a.extents ==> f in b.extents && a.extents[f] <= b.extents[f])
    && (forall f :: f in b.extents && f != file ==> f in a.extents && b.extents[f] == a.extents[f])
    && (forall x :: x in a.extentFile ==> x in b.extentFile)
    && (forall x :: x in b.extentFile ==> b.extentFile[x] == file || (x in a.extentFile && b.extentFile[x] == a.extentFile[x]))
    && (forall x :: x in a.view.sectors ==> x in b.view.sectors)
    && (forall x :: x in b.view.sectors ==>
          || (x in a.view.sectors && b.view.sectors[x] == a.view.sectors[x])
          || (b.view.sectors[x].FileData? && b.view.sectors[x].file == file)
          || (b.view.sectors[x] == ExtentBlock(x) && x in b.extentFile && b.extentFile[x] == file))
  }

  lemma OnlyTrans(file: nat, a: Shot, b: Shot, c: Shot)
    requires OnlyFile(file, a, b) && OnlyFile(file, b, c)
    ensures OnlyFile(file, a, c)
  {
  }

  lemma SameTrans(a: Shot, b: Shot, c: Shot)
    requires SameShot(a, b) && SameShot(b, c)
    ensures SameShot(a, c)
  {
  }

  lemma OnlySame(file: nat, a: Shot, b: Shot)
    requires SameShot(a, b)
    ensures OnlyFile(file, a, b)
  {
  }

  lemma OnlyList(file: nat, a: Shot, b: Shot)
    requires b.record == a.record && b.extents == a.extents && b.extentFile == a.extentFile && b.view.sectors == a.view.sectors
    requires forall f :: f != file ==> ListIn(b.view.lists, f) == ListIn(a.view.lists, f)
    ensures OnlyFile(file, a, b)
  {
  }

  lemma OnlyPlaced(file: nat, a: Shot, b: Shot, sector: nat, p: Pointer)
    requires b.record == a.record && b.extents == a.extents && b.extentFile == a.extentFile
    requires p.FileData? && p.file == file && b.view.sectors == a.view.sectors[sector := p]
    requires forall f :: f != file ==> ListIn(b.view.lists, f) == ListIn(a.view.lists, f)
    ensures OnlyFile(file, a, b)
  {
  }

  lemma OnlyRecorded(file: nat, a: Shot, b: Shot, sector: nat)
    requires b.record == a.record && b.view.lists == a.view.lists && b.extentFile == a.extentFile[sector := file]
    requires b.view.sectors == a.view.sectors[sector := ExtentBlock(sector)]
    requires b.extents == a.extents[file := (if file in a.extents then a.extents[file] else []) + [sector]]
    ensures OnlyFile(file, a, b) && LeafOf(file, sector, b)
  {
  }

  /** A sector is recorded as a leaf block of a file. */
  ghost predicate LeafOf(file: nat, sector: nat, a: Shot) {
    && sector in a.extentFile && a.extentFile[sector] == file && file in a.extents && sector in a.extents[file]
    && sector in a.view.sectors
    && (a.view.sectors[sector] == ExtentBlock(sector) || (a.view.sectors[sector].FileData? && a.view.sectors[sector].file == file))
  }

  /** The leaf blocks known of a file. */
  function Known(a: Shot, file: nat): seq<nat> {
    if file in a.extents then a.extents[file] else []
  }

  /** The leaves of the first `n` entries of an index node are recorded as the file's. */
  ghost predicate LeavesOf(g: Geometry, file: nat, b: seq<Byte>, n: nat, a: Shot) {
    forall k :: 0 <= k < n && LeafBlockAt(b, k) != 0 ==> LeafOf(file, SectorOf(g, LeafBlockAt(b, k)), a)
  }

  lemma LeavesStay(g: Geometry, file: nat, b: seq<Byte>, n: nat, a: Shot, c: Shot)
    requires LeavesOf(g, file, b, n, a) && OnlyFile(file, a, c)
    requires LeafBlockAt(b, n) != 0 ==> LeafOf(file, SectorOf(g, LeafBlockAt(b, n)), c)
    ensures LeavesOf(g, file, b, n + 1, c)
  {
    hide LeafOf, OnlyFile, LeafBlockAt, SectorOf;
    forall k | 0 <= k < n && LeafBlockAt(b, k) != 0 ensures LeafOf(file, SectorOf(g, LeafBlockAt(b, k)), c) {
      LeafStays(file, SectorOf(g, LeafBlockAt(b, k)), a, c);
    }
  }

  lemma LeafStays(file: nat, sector: nat, a: Shot, b: Shot)
    requires LeafOf(file, sector, a) && OnlyFile(file, a, b)
    ensures LeafOf(file, sector, b)
  {
  }

  // ------------------------------------------------------------------ events and metadata

  lemma {:induction false} FoldStep(m: Metadata, es: seq<Event>, e: Event)
    ensures Fold(m, es + [e]) == (if e.FieldEvent? then Fold(m, es)[(e.file, e.field) := e.after] else Fold(m, es))
    ensures Chained(m, es + [e]) ==
              (&& Chained(m, es)
               && (e.FieldEvent? && (e.file, e.field) in Fold(m, es) ==> Fold(m, es)[(e.file, e.field)] == e.before))
  {
    assert (es + [e])[..|es|] == es;
  }

  /** A field event touches its own key only. */
  predicate Touches(e: Event, file: nat, field: FieldName) {
    e.FieldEvent? && e.file == file && e.field == field
  }

  lemma {:induction false} ChainedPrefix(m: Metadata, es: seq<Event>, n: nat)
    requires Chained(m, es) && n <= |es|
    ensures Chained(m, es[..n])
    decreases |es|
  {
    if n == |es| {
      assert es[..n] == es;
    } else {
      ChainedPrefix(m, es[..|es| - 1], n);
      assert es[..|es| - 1][..n] == es[..n];
    }
  }

  /** Between two events on a key, the folded value is the first one's new value. */
  lemma {:induction false} FoldKeeps(m: Metadata, es: seq<Event>, i: nat, file: nat, field: FieldName)
    requires i < |es| && Touches(es[i], file, field)
    requires forall k :: i < k < |es| ==> !Touches(es[k], file, field)
    ensures (file, field) in Fold(m, es) && Fold(m, es)[(file, field)] == es[i].after
    decreases |es|
  {
    if i < |es| - 1 {
      FoldKeeps(m, es[..|es| - 1], i, file, field);
    }
  }

  /** In a chained history every event's old value is the new value of the event before it on the
      same field of the same file. */
  lemma {:induction false} OldIsPreviousNew(m: Metadata, es: seq<Event>, i: nat, j: nat)
    requires Chained(m, es) && i < j < |es|
    requires es[j].FieldEvent? && Touches(es[i], es[j].file, es[j].field)
    requires forall k :: i < k < j ==> !Touches(es[k], es[j].file, es[j].field)
    ensures es[j].before == es[i].after
  {
    ChainedPrefix(m, es, j + 1);
    assert es[..j + 1][..j] == es[..j];
    FoldKeeps(m, es[..j], i, es[j].file, es[j].field);
  }

  /** Values read for a file: those stored; a missing field leaves whatever the variable held. */
  ghost predicate ReadFrom(m: Metadata, file: nat, values: seq<nat>) {
    |values| == |FIELDS| && forall k :: 0 <= k < |FIELDS| && (file, FIELDS[k]) in m ==> values[k] == m[(file, FIELDS[k])]
  }

  /** The values of a file that has them all. */
  function Stored(m: Metadata, file: nat): (r: seq<nat>)
    requires Complete(m, file)
    ensures ReadFrom(m, file, r)
  {
    seq(|FIELDS|, k requires 0 <= k < |FIELDS| => m[(file, FIELDS[k])])
  }

  lemma {:induction false} StoredIsRead(m: Metadata, file: nat, values: seq<nat>)
    requires Complete(m, file) && ReadFrom(m, file, values)
    ensures values == Stored(m, file)
  {
    assert forall k :: 0 <= k < |FIELDS| ==> values[k] == Stored(m, file)[k];
  }

  /** `m` with those of the first `k` fields of a file that differ from the values taken from an inode. */
  function Merge(m: Metadata, file: nat, inode: Inode, values: seq<nat>, k: nat): Metadata
    requires k <= |FIELDS| == |values|
  {
    if k == 0 then m else
    var name, rest := FIELDS[k - 1], Merge(m, file, inode, values, k - 1);
    if values[k - 1] == inode.Field(name) then rest else rest[(file, name) := inode.Field(name)]
  }

  /** The events for those of the first `k` fields that differ. */
  function Differences(file: nat, inode: Inode, values: seq<nat>, k: nat): seq<Event>
    requires k <= |FIELDS| == |values|
  {
    if k == 0 then [] else
    var name := FIELDS[k - 1];
    Differences(file, inode, values, k - 1) +
    (if values[k - 1] == inode.Field(name) then [] else [FieldEvent(file, name, values[k - 1], inode.Field(name))])
  }

  /** An event is published for exactly the fields whose value read differs from the inode. */
  lemma {:induction false} DifferencesAreExact(file: nat, inode: Inode, values: seq<nat>, k: nat, e: Event)
    requires k <= |FIELDS| == |values|
    ensures e in Differences(file, inode, values, k) <==>
              (exists i :: 0 <= i < k && e == FieldEvent(file, FIELDS[i], values[i], inode.Field(FIELDS[i]))
                           && e.before != e.after)
  {
    if k > 0 {
      DifferencesAreExact(file, inode, values, k - 1, e);
    }
  }

  /** The first `k` fields, where stored, are the inode's; everything else is as it was. */
  lemma {:induction false} MergeAt(m: Metadata, file: nat, inode: Inode, values: seq<nat>, k: nat, name: FieldName, f: nat)
    requires k <= |FIELDS| && ReadFrom(m, file, values)
    ensures var d := Merge(m, file, inode, values, k);
            && ((f, name) in m ==> (f, name) in d)
            && (f == file && name in FIELDS[..k] && (f, name) in d ==> d[(f, name)] == inode.Field(name))
            && (f != file || name !in FIELDS[..k] ==>
                  && ((f, name) in d <==> (f, name) in m) && ((f, name) in m ==> d[(f, name)] == m[(f, name)]))
  {
    hide Inode.Field;
    if k > 0 {
      MergeAt(m, file, inode, values, k - 1, name, f);
      FieldsAreDistinct(k - 1);
      assert FIELDS[..k] == FIELDS[..k - 1] + [FIELDS[k - 1]];
    }
  }

  lemma {:induction false} FieldsAreDistinct(k: nat)
    requires k < |FIELDS|
    ensures FIELDS[k] !in FIELDS[..k]
  {
    assert |FIELDS| == 9;
    assert forall i, j :: 0 <= i < j < 9 ==> FIELDS[i] != FIELDS[j];
  }

  lemma {:induction false} AllFields(name: FieldName)
    ensures name in FIELDS
  {
    match name
    case IsDir => assert FIELDS[0] == name;
    case Size => assert FIELDS[1] == name;
    case Mode => assert FIELDS[2] == name;
    case LinkCount => assert FIELDS[3] == name;
    case Uid => assert FIELDS[4] == name;
    case Gid => assert FIELDS[5] == name;
    case Atime => assert FIELDS[6] == name;
    case Mtime => assert FIELDS[7] == name;
    case Ctime => assert FIELDS[8] == name;
  }

  /** The fields of a file, in order; a missing one leaves its variable alone. */
  method ReadFields(s: KvStore, file: nat) returns (values: seq<nat>)
    requires s.Valid()
    modifies s`pending, s`outstanding
    ensures s.Valid() && s.Fuel() <= old(s.Fuel()) && ReadFrom(s.metadata, file, values)
  {
    hide KvStore.Consistent, KvStore.Fuel;
    values := [];
    for k := 0 to |FIELDS|
      invariant s.Valid() && s.Fuel() <= old(s.Fuel()) && |values| == k
      invariant forall i :: 0 <= i < k && (file, FIELDS[i]) in s.metadata ==> values[i] == s.metadata[(file, FIELDS[i])]
    {
      var v := s.GetField(file, FIELDS[k]);
      values := values + [v];
    }
  }

  /** One field: `events` already takes the stored metadata to the merge of the first `k`. */
  lemma {:induction false} NextDifference(init: Metadata, events: seq<Event>, m: Metadata, file: nat, inode: Inode,
                                          values: seq<nat>, k: nat)
    requires k < |FIELDS| && ReadFrom(m, file, values)
    requires Fold(init, events) == Merge(m, file, inode, values, k) && Chained(init, events)
    ensures var name := FIELDS[k];
            if values[k] == inode.Field(name) then
              Merge(m, file, inode, values, k + 1) == Merge(m, file, inode, values, k)
            else
              var next := events + [FieldEvent(file, name, values[k], inode.Field(name))];
              Fold(init, next) == Merge(m, file, inode, values, k + 1) && Chained(init, next)
  {
    FieldsAreDistinct(k);
    MergeAt(m, file, inode, values, k, FIELDS[k], file);
    FoldStep(init, events, FieldEvent(file, FIELDS[k], values[k], inode.Field(FIELDS[k])));
  }

  method PublishDifferences(s: KvStore, file: nat, inode: Inode, values: seq<nat>)
    requires s.Valid() && ReadFrom(s.metadata, file, values)
    modifies s`published, s`pending
    ensures s.Connected() && s.Fuel() <= old(s.Fuel())
    ensures s.published == old(s.published) + Differences(file, inode, values, |FIELDS|)
    ensures Fold(s.initial, s.published) == Merge(s.metadata, file, inode, values, |FIELDS|) && Chained(s.initial, s.published)
  {
    hide KvStore.Fuel, Fold, Chained;
    ghost var m := s.metadata;
    for k := 0 to |FIELDS|
      invariant s.Connected() && s.Fuel() <= old(s.Fuel())
      invariant s.published == old(s.published) + Differences(file, inode, values, k)
      invariant Fold(s.initial, s.published) == Merge(m, file, inode, values, k) && Chained(s.initial, s.published)
    {
      NextDifference(s.initial, s.published, m, file, inode, values, k);
      if values[k] != inode.Field(FIELDS[k]) {
        s.Publish(FieldEvent(file, FIELDS[k], values[k], inode.Field(FIELDS[k])));
      }
    }
  }

  method StoreFields(s: KvStore, file: nat, inode: Inode, values: seq<nat>)
    requires s.Connected() && |values| == |FIELDS|
    modifies s`metadata, s`pending, s`outstanding
    ensures s.Connected() && s.Fuel() <= old(s.Fuel())
    ensures s.metadata == Merge(old(s.metadata), file, inode, values, |FIELDS|)
  {
    hide KvStore.Fuel;
    ghost var m := s.metadata;
    for k := 0 to |FIELDS|
      invariant s.Connected() && s.Fuel() <= old(s.Fuel()) && s.metadata == Merge(m, file, inode, values, k)
    {
      if values[k] != inode.Field(FIELDS[k]) {
        s.SetField(file, FIELDS[k], inode.Field(FIELDS[k]));
      }
    }
  }

  lemma {:induction false} MergeKeys(m: Metadata, file: nat, inode: Inode, values: seq<nat>, k: nat)
    requires k <= |FIELDS| == |values|
    ensures m.Keys <= Merge(m, file, inode, values, k).Keys
    ensures Complete(m, file) ==> Merge(m, file, inode, values, k).Keys == m.Keys
  {
    if k > 0 {
      MergeKeys(m, file, inode, values, k - 1);
    }
  }

  /** The record after one more inode, with these values read for its file. */
  ghost function DiffedWith(r: Record, file: nat, inode: Inode, values: seq<nat>): Record
    requires |values| == |FIELDS|
  {
    Record(Merge(r.metadata, file, inode, values, |FIELDS|), r.latest[file := inode],
           r.fields + Differences(file, inode, values, |FIELDS|))
  }

  /** The record after one more inode of a file that has all its fields. */
  ghost function DiffedFile(r: Record, file: nat, inode: Inode): Record {
    if Complete(r.metadata, file) then DiffedWith(r, file, inode, Stored(r.metadata, file)) else r
  }

  /** The record after the inodes of these files in a block of an inode table. */
  ghost function DiffedFiles(r: Record, files: seq<nat>, offsets: map<nat, nat>, data: seq<Byte>): Record {
    if files == [] then r else
    var n := |files| - 1;
    var before := DiffedFiles(r, files[..n], offsets, data);
    if files[n] in offsets then DiffedFile(before, files[n], InodeAt(data, offsets[files[n]])) else before
  }

  ghost function DiffedTable(files: map<nat, seq<nat>>, offsets: map<nat, nat>, r: Record, table: nat, data: seq<Byte>): Record {
    if table in files then DiffedFiles(r, files[table], offsets, data) else r
  }

  lemma {:induction false} FieldsOfAppend(es: seq<Event>, e: Event)
    ensures FieldsOf(es + [e]) == FieldsOf(es) + (if e.FieldEvent? then [e] else [])
  {
    assert (es + [e])[..|es|] == es;
  }

  /** Differences are field events. */
  lemma {:induction false} FieldsOfDifferences(es: seq<Event>, file: nat, inode: Inode, values: seq<nat>, k: nat)
    requires k <= |FIELDS| == |values|
    ensures FieldsOf(es + Differences(file, inode, values, k)) == FieldsOf(es) + Differences(file, inode, values, k)
  {
    hide FieldsOf;
    if k == 0 {
      assert es + [] == es && FieldsOf(es) + [] == FieldsOf(es);
    } else {
      FieldsOfDifferences(es, file, inode, values, k - 1);
      var d := Differences(file, inode, values, k - 1);
      var e := FieldEvent(file, FIELDS[k - 1], values[k - 1], inode.Field(FIELDS[k - 1]));
      hide Inode.Field;
      if e.before == e.after {
        assert Differences(file, inode, values, k) == d;
      } else {
        assert Differences(file, inode, values, k) == d + [e];
        FieldsOfAppend(es + d, e);
        assert es + (d + [e]) == es + d + [e];
        assert FieldsOf(es) + (d + [e]) == FieldsOf(es) + d + [e];
      }
    }
  }

  /** After the inodes of a table every file of it has the inode of the block, and every field its
      value there; other files keep theirs. */
  lemma {:induction false} DiffedFilesAre(r: Record, files: seq<nat>, offsets: map<nat, nat>, data: seq<Byte>, f: nat, name: FieldName)
    requires forall x :: x in files ==> x in offsets && Complete(r.metadata, x)
    ensures var d := DiffedFiles(r, files, offsets, data);
            && d.metadata.Keys == r.metadata.Keys
            && (f in files ==> && f in d.latest && d.latest[f] == InodeAt(data, offsets[f])
                               && (f, name) in d.metadata && d.metadata[(f, name)] == InodeAt(data, offsets[f]).Field(name))
            && (f !in files ==> && (f in d.latest <==> f in r.latest) && (f in r.latest ==> d.latest[f] == r.latest[f])
                                && ((f, name) in r.metadata ==> d.metadata[(f, name)] == r.metadata[(f, name)]))
  {
    hide InodeAt;
    if files != [] {
      var n := |files| - 1;
      DiffedFilesAre(r, files[..n], offsets, data, f, name);
      var before := DiffedFiles(r, files[..n], offsets, data);
      var inode := InodeAt(data, offsets[files[n]]);
      assert Complete(r.metadata, files[n]) && Complete(before.metadata, files[n]);
      var values := Stored(before.metadata, files[n]);
      MergeAt(before.metadata, files[n], inode, values, |FIELDS|, name, f);
      MergeKeys(before.metadata, files[n], inode, values, |FIELDS|);
      AllFields(name);
      assert FIELDS[..|FIELDS|] == FIELDS;
      assert files == files[..n] + [files[n]];
    }
  }

  /** Reading, comparing, publishing and storing one file's metadata: the nine fields in turn.
      Exactly the differing fields are published, with the stored value as the old one. */
  method DiffMetadata(s: KvStore, file: nat, inode: Inode) returns (values: seq<nat>)
    requires s.Valid()
    modifies s`metadata, s`published, s`pending, s`outstanding, s`latest
    ensures s.Valid() && s.Fuel() <= old(s.Fuel())
    ensures ReadFrom(old(s.metadata), file, values)
    ensures s.published == old(s.published) + Differences(file, inode, values, |FIELDS|)
    ensures RecordOf(s) == DiffedWith(old(RecordOf(s)), file, inode, values)
  {
    hide KvStore.Fuel, Merge, Differences, Fold, Chained, FieldsOf;
    ghost var m := s.metadata;
    values := ReadFields(s, file);
    FieldsOfDifferences(s.published, file, inode, values, |FIELDS|);
    PublishDifferences(s, file, inode, values);
    StoreFields(s, file, inode, values);
    s.latest := s.latest[file := inode];
    forall f: nat, name | f in s.latest && (f, name) in s.metadata
      ensures s.metadata[(f, name)] == s.latest[f].Field(name)
    {
      AllFields(name);
      assert FIELDS[..|FIELDS|] == FIELDS;
      MergeAt(m, file, inode, values, |FIELDS|, name, f);
    }
  }

  // ------------------------------------------------------------------ file data

  method PublishData(s: KvStore, e: Event)
    requires s.Valid() && e.DataEvent?
    modifies s`published, s`pending
    ensures s.Valid() && s.published == old(s.published) + [e] && s.Fuel() <= old(s.Fuel())
    ensures RecordOf(s) == old(RecordOf(s))
  {
    FieldsOfAppend(s.published, e);
    FoldStep(s.initial, s.published, e);
    s.Publish(e);
  }

  /** Bytes between a block's start and the end of its file, in 64-bit arithmetic. */
  function ToEnd(size: nat, start: nat): nat {
    (size - start) % TWO64
  }

  /** The queue after a block of file data: the file's last block stays queued, a block that ends
      before the end of the file does not. */
  function QueueAfter(q: map<nat, seq<Byte>>, sector: nat, data: seq<Byte>, len: nat, p: Pointer, size: nat)
    : map<nat, seq<Byte>>
    requires p.FileData? && len <= |data|
  {
    var kept := if len >= ToEnd(size, p.start) then q[sector := data[..ToEnd(size, p.start)]] else q;
    if p.end < size then kept - {sector} else kept
  }

  /** The block holds the end of its file: it is queued and not taken out again. */
  predicate Requeues(p: Pointer, len: nat, size: nat)
    requires p.FileData?
  {
    len >= ToEnd(size, p.start) && p.end >= size
  }

  lemma QueueKeys(q: map<nat, seq<Byte>>, sector: nat, data: seq<Byte>, len: nat, p: Pointer, size: nat)
    requires p.FileData? && len <= |data| && sector !in q
    ensures QueueAfter(q, sector, data, len, p, size).Keys == if Requeues(p, len, size) then q.Keys + {sector} else q.Keys
  {
  }

  /** The bytes a dequeue of the sector would hand out. */
  function Waiting(pending: seq<Reply>, q: map<nat, seq<Byte>>, sector: nat, max: nat): seq<Byte> {
    DequeuedBytes(pending, if sector in q then Str(q[sector]) else Nil, max)
  }

  lemma NothingWaiting(pending: seq<Reply>, q: map<nat, seq<Byte>>, sector: nat, max: nat)
    requires Strings(pending) == 0 && sector !in q
    ensures Waiting(pending, q, sector, max) == []
  {
  }

  /** A sector with nothing queued, reinspected while another sector's bytes stand first among the
      unread replies, and holding the end of its file: the queue, empty before, holds it afterwards. */
  lemma {:induction false} QueueGainsSector(first: seq<Byte>)
    requires |first| == 4096
    ensures Waiting([Str(first), Integer(1)], map[], 20, 4096) == first
    ensures QueueAfter(map[], 20, first, 4096, FileData(0, 4096, 1), 100).Keys == {20}
  {
    QueueKeys(map[], 20, first, 4096, FileData(0, 4096, 1), 100);
  }

  /** The file's data event has been published after `was`, and the queue is what that leaves of `q`. */
  ghost predicate ExplainedIn(m: Metadata, was: seq<Event>, now: seq<Event>, sector: nat, p: Pointer, data: seq<Byte>, len: nat,
                              q: map<nat, seq<Byte>>, q': map<nat, seq<Byte>>)
    requires p.FileData? && len <= |data| && (p.file, Size) in m
  {
    var size := m[(p.file, Size)];
    && now == was + [DataEvent(p.file, p.start, p.end, data[..Min(len, ToEnd(size, p.start))])]
    && q' == QueueAfter(q, sector, data, len, p, size)
  }

  ghost predicate Explained(s: KvStore, was: seq<Event>, sector: nat, p: Pointer, data: seq<Byte>, len: nat, q: map<nat, seq<Byte>>)
    requires p.FileData? && len <= |data| && (p.file, Size) in s.metadata
    reads s`metadata, s`published, s`queued
  {
    ExplainedIn(s.metadata, was, s.published, sector, p, data, len, q, s.queued)
  }

  /** The event published last carries these bytes of the write, and this is the queue. */
  ghost predicate Carried(was: seq<Event>, now: seq<Event>, p: Pointer, data: seq<Byte>, n: nat)
    requires p.FileData? && n <= |data|
  {
    && |now| == |was| + 1 && now[..|was|] == was && now[|was|].DataEvent?
    && now[|was|].file == p.file && now[|was|].start == p.start && now[|was|].end == p.end
    && |now[|was|].bytes| == n && forall i :: 0 <= i < n ==> now[|was|].bytes[i] == data[i]
  }

  /** A block that starts inside its file: the bytes published are those up to the end of the file, and
      no more. They stay queued exactly when the block holds that end. */
  lemma {:induction false} PartOfFile(m: Metadata, was: seq<Event>, now: seq<Event>, sector: nat, p: Pointer, data: seq<Byte>, len: nat,
                                      q: map<nat, seq<Byte>>, q': map<nat, seq<Byte>>)
    requires p.FileData? && len <= |data| && (p.file, Size) in m && ExplainedIn(m, was, now, sector, p, data, len, q, q')
    requires p.start <= m[(p.file, Size)] < TWO64
    ensures var size := m[(p.file, Size)];
            && Carried(was, now, p, data, if p.start + len <= size then len else size - p.start)
            && (p.end < size ==> q' == q - {sector})
            && (p.end >= size && p.start + len >= size ==> q' == q[sector := data[..size - p.start]])
            && (p.end >= size && p.start + len < size ==> q' == q)
  {
    var size := m[(p.file, Size)];
    assert p.end < size ==> (q[sector := data[..Min(len, size - p.start)]]) - {sector} == q - {sector};
  }

  /** A block behind the end of its file: the difference wraps, so that the whole write is published and
      nothing is queued. */
  lemma {:induction false} BehindFile(m: Metadata, was: seq<Event>, now: seq<Event>, sector: nat, p: Pointer, data: seq<Byte>, len: nat,
                                      q: map<nat, seq<Byte>>, q': map<nat, seq<Byte>>)
    requires p.FileData? && len <= |data| && (p.file, Size) in m && ExplainedIn(m, was, now, sector, p, data, len, q, q')
    requires m[(p.file, Size)] < p.start <= p.end && p.start + len < TWO64
    ensures Carried(was, now, p, data, len) && q' == q
  {
  }

  /** __emit_file_bytes: publish the part of the write that belongs to the file. */
  method EmitFileBytes(s: KvStore, data: seq<Byte>, p: Pointer, writeLen: nat, sector: nat)
    requires s.Valid() && p.FileData? && writeLen <= |data|
    modifies s`queued, s`published, s`pending, s`outstanding
    ensures s.Valid() && s.Fuel() <= old(s.Fuel()) + 1
    ensures s.queued.Keys <= old(s.queued.Keys) + {sector} && old(s.published) <= s.published
    ensures RecordOf(s) == old(RecordOf(s))
    ensures (p.file, Size) in s.metadata ==>
              Explained(s, old(s.published), sector, p, data, writeLen, old(s.queued))
  {
    hide KvStore.Consistent, Listed, KvStore.Fuel;
    var size := s.GetField(p.file, Size);
    var rest := ToEnd(size, p.start);
    var n := writeLen;
    if writeLen >= rest {
      n := rest;
      s.Enqueue(sector, data[..n]);
    }
    if p.end < size {
      s.Unqueue(sector);
    }
    PublishData(s, DataEvent(p.file, p.start, p.end, data[..n]));
  }

  /** __diff_superblock and __diff_bgds: they read, publish on the file system's own channel and
      store fields that the rest of the engine does not read. */
  method DiffOther(s: KvStore)
    requires s.Valid()
    modifies s`pending, s`outstanding
    ensures s.Valid() && s.Fuel() <= old(s.Fuel())
  {
    hide KvStore.Consistent, Listed, KvStore.Fuel;
    s.Flush();
    var commands: seq<bool> := *;
    for k := 0 to |commands|
      invariant s.Valid() && s.Fuel() <= old(s.Fuel())
    {
      s.Pipeline(Status);
    }
  }

  /** No block of the write from sector `i` on has a pointer. */
  ghost predicate NoneKnown(m: map<nat, Pointer>, sectorNum: nat, sectors: nat, step: nat, i: nat)
    requires step > 0
    decreases sectors - i
  {
    i < sectors ==> sectorNum + i !in m && NoneKnown(m, sectorNum, sectors, step, i + step)
  }

  /** The block of the write that starts at its sector `i`, possibly cut short. */
  function BlockAt(g: Geometry, sectors: nat, data: seq<Byte>, i: nat): seq<Byte>
    requires |data| >= sectors * SECTOR_SIZE && i < sectors
  {
    data[i * SECTOR_SIZE..i * SECTOR_SIZE + Min((sectors - i) * SECTOR_SIZE, g.blockSize)]
  }

  lemma WholeWrite(g: Geometry, sectors: nat, data: seq<Byte>)
    requires |data| >= sectors * SECTOR_SIZE && sectors > 0
    ensures data[0..] == data
    ensures sectors <= Step(g) ==> |BlockAt(g, sectors, data, 0)| == sectors * SECTOR_SIZE
  {
  }

  /** The queue after the blocks from sector `i` on have been queued, each under its own sector. */
  ghost function Unexplained(q: map<nat, seq<Byte>>, g: Geometry, sectorNum: nat, sectors: nat, data: seq<Byte>, i: nat)
    : map<nat, seq<Byte>>
    requires Usable(g) && |data| >= sectors * SECTOR_SIZE
    decreases sectors - i
  {
    if i >= sectors then q else
    Unexplained(q[sectorNum + i := BlockAt(g, sectors, data, i)], g, sectorNum, sectors, data,
                i + Step(g))
  }

  /** Sectors below sector `i` of the write, and behind the write, keep what was queued for them. */
  lemma {:induction false} UnexplainedOthers(q: map<nat, seq<Byte>>, g: Geometry, sectorNum: nat, sectors: nat, data: seq<Byte>,
                                             i: nat, x: nat)
    requires Usable(g) && |data| >= sectors * SECTOR_SIZE && (x < sectorNum + i || x >= sectorNum + sectors)
    ensures var r := Unexplained(q, g, sectorNum, sectors, data, i); (x in r <==> x in q) && (x in q ==> r[x] == q[x])
    decreases sectors - i
  {
    StepIs(g);
    hide Step, BlockAt;
    if i < sectors {
      UnexplainedOthers(q[sectorNum + i := BlockAt(g, sectors, data, i)], g, sectorNum, sectors, data, i + Step(g), x);
    }
  }

  /** The queue has the block that starts `n` blocks behind sector `i` under its own sector. */
  lemma {:induction false} UnexplainedBlock(q: map<nat, seq<Byte>>, g: Geometry, sectorNum: nat, sectors: nat, data: seq<Byte>,
                                            i: nat, n: nat)
    requires Usable(g) && |data| >= sectors * SECTOR_SIZE && i + n * Step(g) < sectors
    ensures var r, b := Unexplained(q, g, sectorNum, sectors, data, i), i + n * Step(g);
            sectorNum + b in r && r[sectorNum + b] == BlockAt(g, sectors, data, b)
    decreases n
  {
    StepIs(g);
    var step := Step(g);
    hide BlockAt;
    var next := q[sectorNum + i := BlockAt(g, sectors, data, i)];
    if n == 0 {
      assert n * step == 0;
      UnexplainedOthers(next, g, sectorNum, sectors, data, i + step, sectorNum + i);
    } else {
      assert i + n * step == i + step + (n - 1) * step;
      hide Step;
      UnexplainedBlock(next, g, sectorNum, sectors, data, i + step, n - 1);
    }
  }

  /** Every byte of a write nothing is known about is in the queue, under the sector of its block: byte
      `k` of block `n`. */
  lemma {:induction false} UnexplainedByte(q: map<nat, seq<Byte>>, g: Geometry, sectorNum: nat, sectors: nat, data: seq<Byte>,
                                           n: nat, k: nat)
    requires Usable(g) && |data| >= sectors * SECTOR_SIZE && k < g.blockSize && n * g.blockSize + k < sectors * SECTOR_SIZE
    ensures var r, key := Unexplained(q, g, sectorNum, sectors, data, 0), sectorNum + n * (g.blockSize / SECTOR_SIZE);
            key in r && k < |r[key]| && r[key][k] == data[n * g.blockSize + k]
  {
    StepIs(g);
    BlockStart(n, Step(g));
    hide Unexplained, Usable, BlockAt;
    var b, at := n * Step(g), n * g.blockSize;
    assert b * SECTOR_SIZE == at;
    UnexplainedBlock(q, g, sectorNum, sectors, data, 0, n);
    ByteOfBlock(g, sectors, data, b, k);
  }

  lemma BlockStart(n: nat, step: nat)
    ensures n * step * SECTOR_SIZE == n * (step * SECTOR_SIZE)
  {
  }

  lemma ByteOfBlock(g: Geometry, sectors: nat, data: seq<Byte>, b: nat, k: nat)
    requires |data| >= sectors * SECTOR_SIZE && b < sectors && k < g.blockSize && b * SECTOR_SIZE + k < sectors * SECTOR_SIZE
    ensures k < |BlockAt(g, sectors, data, b)| && BlockAt(g, sectors, data, b)[k] == data[b * SECTOR_SIZE + k]
  {
  }

  // ------------------------------------------------------------------ the recursive cycle

  /** __reinspect_write: take the sector's write from the queue and inspect it as one block. On a
      sector of file data the queue gains a sector if and only if the bytes handed out were
      queued for another one and the block holds the end of its file. */
  method Reinspect(s: KvStore, g: Geometry, sector: nat)
    requires Usable(g) && s.Valid()
    modifies s`sectors, s`queued, s`metadata, s`fileSectors, s`extents, s`extentFile, s`published, s`pending,
             s`outstanding, s`latest
    ensures s.Valid() && s.Fuel() <= old(s.Fuel()) && Later(s.garbage, old(ViewOf(s)), ViewOf(s))
    ensures Waiting(old(s.pending), old(s.queued), sector, g.blockSize) == [] ==>
              SameIndex(s) && s.queued == old(s.queued) - {sector} && s.published == old(s.published)
    ensures !IsTable(old(s.sectors), sector) ==> RecordOf(s) == old(RecordOf(s))
    ensures sector in old(s.sectors) && old(s.sectors)[sector].FileData? ==> SameIndex(s)
    ensures sector in old(s.sectors) && old(s.sectors)[sector].ExtentBlock? && old(s.sectors)[sector].id in old(s.extentFile) ==>
              OnlyFile(old(s.extentFile)[old(s.sectors)[sector].id], old(ShotOf(s)), ShotOf(s))
    ensures sector in old(s.sectors) && old(s.sectors)[sector].FileData?
            && (sector in old(s.queued) || Waiting(old(s.pending), old(s.queued), sector, g.blockSize) == []) ==>
              s.queued.Keys <= old(s.queued.Keys)
    ensures sector in old(s.sectors) && old(s.sectors)[sector].FileData?
            && (old(s.sectors)[sector].file, Size) in old(s.metadata) ==>
              (s.queued.Keys <= old(s.queued.Keys) <==>
               || sector in old(s.queued) || Waiting(old(s.pending), old(s.queued), sector, g.blockSize) == []
               || !Requeues(old(s.sectors)[sector], g.blockSize, old(s.metadata)[(old(s.sectors)[sector].file, Size)]))
    ensures old(s.pending) == [] && sector in old(s.queued) && |old(s.queued)[sector]| == g.blockSize
            && sector in old(s.sectors) && old(s.sectors)[sector].FileData?
            && (old(s.sectors)[sector].file, Size) in old(s.metadata) ==>
              Explained(s, old(s.published), sector, old(s.sectors)[sector], old(s.queued)[sector], g.blockSize, old(s.queued) - {sector})
    decreases s.Fuel(), 1
  {
    hide KvStore.Consistent, Listed, KvStore.Fuel, QueueAfter, Requeues, Later, ListsApart, DiffedWrite, OnlyFile;
    LaterSame(s.garbage, ViewOf(s), ViewOf(s));
    var data := s.Dequeue(sector, g.blockSize);
    ghost var a := ShotOf(s);
    forall file ensures OnlyFile(file, old(ShotOf(s)), a) {
      OnlySame(file, old(ShotOf(s)), a);
    }
    if data != [] {
      assert Blocks(Step(g), Step(g)) == 1;
      var junk: seq<Byte> := *;
      if |junk| != g.blockSize - |data| {
        junk := Zeros(g.blockSize - |data|);
      }
      assert |data| == g.blockSize ==> data + junk == data;
      ghost var q := s.queued;
      DeepInspect(s, g, BlockWrite(sector, Step(g), data + junk));
      if sector in old(s.sectors) && old(s.sectors)[sector].ExtentBlock? && old(s.sectors)[sector].id in old(s.extentFile) {
        OnlyTrans(old(s.extentFile)[old(s.sectors)[sector].id], old(ShotOf(s)), a, ShotOf(s));
      }
      if sector in old(s.sectors) && old(s.sectors)[sector].FileData?
         && (old(s.sectors)[sector].file, Size) in old(s.metadata) {
        QueueKeys(q, sector, data + junk, g.blockSize, old(s.sectors)[sector],
                  old(s.metadata)[(old(s.sectors)[sector].file, Size)]);
      }
    }
  }

  /** Record a block's sector in the file's list and point the sector back at the file. */
  method PlaceBlock(s: KvStore, g: Geometry, file: nat, oldLen: nat, e: Extent, i: nat)
    requires s.Connected()
    modifies s`sectors, s`fileSectors, s`pending, s`outstanding
    ensures s.Connected() && s.Fuel() <= old(s.Fuel()) && Later(s.garbage, old(ViewOf(s)), ViewOf(s))
    ensures s.sectors == old(s.sectors)[BlockSector(g, e, i) := BlockPointer(g, file, e, i)]
    ensures var list := old(s.ListOf(file)); var pos := e.block + i; var sector := BlockSector(g, e, i);
            s.ListOf(file) == if pos < oldLen then (if pos < |list| then list[pos := sector] else list) else list + [sector]
    ensures forall f :: f != file ==> s.ListOf(f) == old(s.ListOf(f))
  {
    hide KvStore.Fuel, BlockSector, Later;
    var sector := BlockSector(g, e, i);
    if i + e.block < oldLen {
      s.SetSector(file, i + e.block, sector);
    } else {
      s.PushSector(file, sector);
    }
    var start := (i + e.block) * g.blockSize;
    s.SetPointer(sector, FileData(start, start + g.blockSize, file));
    LaterPlaced(s.garbage, old(ViewOf(s)), ViewOf(s), sector, BlockPointer(g, file, e, i), file);
  }

  /** One block of a leaf extent: place it, and look whether a write to it is waiting. */
  method DiffBlock(s: KvStore, g: Geometry, file: nat, oldLen: nat, e: Extent, i: nat)
    requires Usable(g) && s.Valid()
    modifies s`sectors, s`queued, s`metadata, s`fileSectors, s`extents, s`extentFile, s`published, s`pending,
             s`outstanding, s`latest
    ensures s.Valid() && s.Fuel() <= old(s.Fuel()) && Later(s.garbage, old(ViewOf(s)), ViewOf(s))
    ensures OnlyFile(file, old(ShotOf(s)), ShotOf(s))
    ensures s.extents == old(s.extents) && s.extentFile == old(s.extentFile)
    ensures RecordOf(s) == old(RecordOf(s))
    ensures s.sectors == old(s.sectors)[BlockSector(g, e, i) := BlockPointer(g, file, e, i)]
    ensures var list := old(s.ListOf(file)); var pos := e.block + i; var sector := BlockSector(g, e, i);
            s.ListOf(file) == if pos < oldLen then (if pos < |list| then list[pos := sector] else list) else list + [sector]
    ensures forall f :: f != file ==> s.ListOf(f) == old(s.ListOf(f))
    decreases s.Fuel(), 2
  {
    hide KvStore.Consistent, OnlyFile, Listed, KvStore.Fuel, BlockSector, Later, FieldsOf, Waiting, Requeues, Explained;
    PlaceBlock(s, g, file, oldLen, e, i);
    ghost var placed := ViewOf(s);
    Reinspect(s, g, BlockSector(g, e, i));
    LaterTrans(s.garbage, old(ViewOf(s)), placed, ViewOf(s));
    SameLists(s, old(s.fileSectors), file);
    OnlyPlaced(file, old(ShotOf(s)), ShotOf(s), BlockSector(g, e, i), BlockPointer(g, file, e, i));
  }

  lemma SameLists(s: KvStore, was: map<nat, seq<int>>, file: nat)
    requires forall f :: f != file ==> s.ListOf(f) == ListIn(was, f)
    ensures forall f :: f != file ==> ListIn(s.fileSectors, f) == ListIn(was, f)
  {
  }

  method PushHoles(s: KvStore, file: nat, n: nat)
    requires s.Valid()
    modifies s`fileSectors, s`pending, s`outstanding
    ensures s.Valid() && s.Fuel() <= old(s.Fuel()) && s.ListOf(file) == old(s.ListOf(file)) + Holes(n)
    ensures forall f :: f != file ==> s.ListOf(f) == old(s.ListOf(f))
    ensures Later(s.garbage, old(ViewOf(s)), ViewOf(s))
  {
    hide KvStore.Consistent, Listed, KvStore.Fuel, Later;
    LaterSame(s.garbage, ViewOf(s), ViewOf(s));
    for i := 0 to n
      invariant Later(s.garbage, old(ViewOf(s)), ViewOf(s))
      invariant s.Valid() && s.Fuel() <= old(s.Fuel()) && s.ListOf(file) == old(s.ListOf(file)) + Holes(i)
      invariant forall f :: f != file ==> s.ListOf(f) == old(s.ListOf(f))
    {
      ghost var before := ViewOf(s);
      s.PushSector(file, HOLE);
      LaterHole(s.garbage, before, ViewOf(s), file);
      LaterTrans(s.garbage, old(ViewOf(s)), before, ViewOf(s));
      assert Holes(i + 1) == Holes(i) + [HOLE];
    }
  }

  method DiffExtent(s: KvStore, g: Geometry, file: nat, oldLen: nat, e: Extent)
    requires Usable(g) && s.Valid()
    modifies s`sectors, s`queued, s`metadata, s`fileSectors, s`extents, s`extentFile, s`published, s`pending,
             s`outstanding, s`latest
    ensures s.Valid() && s.Fuel() <= old(s.Fuel()) && Later(s.garbage, old(ViewOf(s)), ViewOf(s))
    ensures OnlyFile(file, old(ShotOf(s)), ShotOf(s))
    ensures s.extents == old(s.extents) && s.extentFile == old(s.extentFile)
    ensures RecordOf(s) == old(RecordOf(s))
    ensures s.sectors == PointBlocks(g, old(s.sectors), file, e, e.len)
    ensures s.ListOf(file) == PlaceExtent(g, old(s.ListOf(file)), oldLen, e)
    ensures forall f :: f != file ==> s.ListOf(f) == old(s.ListOf(f))
    decreases s.Fuel(), 3
  {
    hide KvStore.Consistent, OnlyFile, Listed, KvStore.Fuel, BlockSector, Later, FieldsOf;
    LaterSame(s.garbage, ViewOf(s), ViewOf(s));
    OnlySame(file, ShotOf(s), ShotOf(s));
    ghost var list := s.ListOf(file);
    if e.block >= oldLen {
      PushHoles(s, file, e.block - oldLen);
      list := list + Holes(e.block - oldLen);
      SameLists(s, old(s.fileSectors), file);
      OnlyList(file, old(ShotOf(s)), ShotOf(s));
    }
    for i := 0 to e.len
      invariant s.Valid() && s.Fuel() <= old(s.Fuel()) && Later(s.garbage, old(ViewOf(s)), ViewOf(s))
      invariant OnlyFile(file, old(ShotOf(s)), ShotOf(s))
      invariant s.extents == old(s.extents) && s.extentFile == old(s.extentFile)
      invariant RecordOf(s) == old(RecordOf(s))
      invariant s.sectors == PointBlocks(g, old(s.sectors), file, e, i)
      invariant s.ListOf(file) == PlaceBlocks(g, list, oldLen, e, i)
      invariant forall f :: f != file ==> s.ListOf(f) == old(s.ListOf(f))
    {
      ghost var before, a := ViewOf(s), ShotOf(s);
      DiffBlock(s, g, file, oldLen, e, i);
      OnlyTrans(file, old(ShotOf(s)), a, ShotOf(s));
      LaterTrans(s.garbage, old(ViewOf(s)), before, ViewOf(s));
    }
  }

  method SetLeafPointers(s: KvStore, file: nat, sector: nat)
    requires s.Connected()
    modifies s`sectors, s`extents, s`extentFile, s`pending, s`outstanding
    ensures s.Connected() && s.Fuel() <= old(s.Fuel()) && Strings(s.pending) <= old(Strings(s.pending))
    ensures Later(s.garbage, old(ViewOf(s)), ViewOf(s))
    ensures s.extentFile == old(s.extentFile)[sector := file]
    ensures s.sectors == old(s.sectors)[sector := ExtentBlock(sector)]
    ensures s.extents == old(s.extents)[file := (if file in old(s.extents) then old(s.extents)[file] else []) + [sector]]
  {
    hide Strings, Later;
    s.SetExtentFile(sector, file);
    s.PushExtent(file, sector);
    s.SetPointer(sector, ExtentBlock(sector));
    LaterPlaced(s.garbage, old(ViewOf(s)), ViewOf(s), sector, ExtentBlock(sector), file);
  }

  /** A leaf block not seen before: its file, the file's list of leaf blocks and its own pointer
      are recorded, then a write waiting for it is looked at. */
  method RecordLeaf(s: KvStore, g: Geometry, file: nat, sector: nat)
    requires Usable(g) && s.Valid()
    modifies s`sectors, s`queued, s`metadata, s`fileSectors, s`extents, s`extentFile, s`published, s`pending,
             s`outstanding, s`latest
    ensures s.Valid() && s.Fuel() <= old(s.Fuel()) && Later(s.garbage, old(ViewOf(s)), ViewOf(s))
    ensures OnlyFile(file, old(ShotOf(s)), ShotOf(s))
    ensures Strings(old(s.pending)) == 0 && sector !in old(s.queued) ==>
              && s.extentFile == old(s.extentFile)[sector := file]
              && s.sectors == old(s.sectors)[sector := ExtentBlock(sector)]
              && s.extents == old(s.extents)[file := (if file in old(s.extents) then old(s.extents)[file] else []) + [sector]]
              && s.fileSectors == old(s.fileSectors)
    ensures RecordOf(s) == old(RecordOf(s)) && LeafOf(file, sector, ShotOf(s))
    decreases s.Fuel(), 2
  {
    hide KvStore.Consistent, OnlyFile, LeafOf, Listed, KvStore.Fuel, Waiting, Strings, Requeues, Explained, Later, FieldsOf;
    SetLeafPointers(s, file, sector);
    ghost var recorded, a := ViewOf(s), ShotOf(s);
    OnlyRecorded(file, old(ShotOf(s)), a, sector);
    if Strings(s.pending) == 0 && sector !in s.queued {
      NothingWaiting(s.pending, s.queued, sector, g.blockSize);
    }
    Reinspect(s, g, sector);
    LaterTrans(s.garbage, old(ViewOf(s)), recorded, ViewOf(s));
    OnlyTrans(file, old(ShotOf(s)), a, ShotOf(s));
    LeafStays(file, sector, a, ShotOf(s));
  }

  /** The scan for a place in the list of known leaf blocks; it inserts nothing. */
  method ScanKnown(s: KvStore, file: nat, known: seq<nat>, sector: nat)
    requires s.Valid()
    modifies s`pending, s`outstanding
    ensures s.Valid() && s.Fuel() <= old(s.Fuel())
  {
    hide KvStore.Consistent, Listed, KvStore.Fuel;
    for i := 0 to |known|
      invariant s.Valid() && s.Fuel() <= old(s.Fuel())
    {
      if sector == known[i] {
        break;
      }
      if sector < known[i] {
        s.InsertExtentBefore(file, i, sector);
      }
    }
  }

  /** One entry of an index node. */
  method DiffIndexEntry(s: KvStore, g: Geometry, file: nat, known: seq<nat>, leaf: nat)
    requires Usable(g) && s.Valid()
    modifies s`sectors, s`queued, s`metadata, s`fileSectors, s`extents, s`extentFile, s`published, s`pending,
             s`outstanding, s`latest
    ensures s.Valid() && s.Fuel() <= old(s.Fuel()) && Later(s.garbage, old(ViewOf(s)), ViewOf(s))
    ensures OnlyFile(file, old(ShotOf(s)), ShotOf(s))
    ensures leaf == 0 || known != [] ==> SameIndex(s)
    ensures var sector := SectorOf(g, leaf);
            leaf != 0 && known == [] && Strings(old(s.pending)) == 0 && sector !in old(s.queued) ==>
              && s.extentFile == old(s.extentFile)[sector := file]
              && s.sectors == old(s.sectors)[sector := ExtentBlock(sector)]
              && s.extents == old(s.extents)[file := (if file in old(s.extents) then old(s.extents)[file] else []) + [sector]]
              && s.fileSectors == old(s.fileSectors)
    ensures RecordOf(s) == old(RecordOf(s))
    ensures leaf != 0 && known == [] ==> LeafOf(file, SectorOf(g, leaf), ShotOf(s))
    decreases s.Fuel(), 3
  {
    hide KvStore.Consistent, OnlyFile, LeafOf, Listed, KvStore.Fuel, SectorOf, Strings, Later, FieldsOf;
    LaterSame(s.garbage, ViewOf(s), ViewOf(s));
    OnlySame(file, ShotOf(s), ShotOf(s));
    if leaf != 0 {
      var sector := SectorOf(g, leaf);
      if |known| == 0 {
        RecordLeaf(s, g, file, sector);
      }
      ScanKnown(s, file, known, sector);
    }
  }

  lemma SameStart(file: nat, a: Shot)
    ensures SameShot(a, a) && OnlyFile(file, a, a)
  {
  }

  lemma NoLeaves(g: Geometry, file: nat, b: seq<Byte>, a: Shot)
    ensures LeavesOf(g, file, b, 0, a)
  {
  }

  /** __diff_ext4_extents. A leaf node places its extents; an index node records its leaves, unless
      leaves of the file are known already. */
  method DiffExtents(s: KvStore, g: Geometry, file: nat, b: seq<Byte>)
    requires Usable(g) && s.Valid()
    modifies s`sectors, s`queued, s`metadata, s`fileSectors, s`extents, s`extentFile, s`published, s`pending,
             s`outstanding, s`latest
    ensures s.Valid() && s.Fuel() <= old(s.Fuel()) && Later(s.garbage, old(ViewOf(s)), ViewOf(s))
    ensures OnlyFile(file, old(ShotOf(s)), ShotOf(s))
    ensures Depth(b) == 0 ==>
              && s.ListOf(file) == Place(g, old(s.ListOf(file)), |old(s.ListOf(file))|, Leaf(b))
              && s.sectors == Point(g, old(s.sectors), file, Leaf(b))
              && (forall f :: f != file ==> s.ListOf(f) == old(s.ListOf(f)))
              && s.extents == old(s.extents) && s.extentFile == old(s.extentFile)
    ensures RecordOf(s) == old(RecordOf(s))
    ensures Depth(b) != 0 && Known(old(ShotOf(s)), file) != [] ==> SameIndex(s)
    ensures Depth(b) != 0 && Known(old(ShotOf(s)), file) == [] ==> LeavesOf(g, file, b, Entries(b), ShotOf(s))
    decreases s.Fuel(), 4
  {
    hide KvStore.Consistent, OnlyFile, Listed, KvStore.Fuel, PlaceExtent, PointBlocks, Read, Later, FieldsOf, LeavesOf, SameShot, LeafOf;
    LaterSame(s.garbage, ViewOf(s), ViewOf(s));
    SameStart(file, ShotOf(s));
    NoLeaves(g, file, b, ShotOf(s));
    var oldLen := s.ListLength(file);
    var known := s.ExtentsOf(file);
    var entries := Entries(b);
    for k := 0 to entries
      invariant s.Valid() && s.Fuel() <= old(s.Fuel()) && Later(s.garbage, old(ViewOf(s)), ViewOf(s))
      invariant OnlyFile(file, old(ShotOf(s)), ShotOf(s))
      invariant Depth(b) != 0 && known != [] ==> SameShot(old(ShotOf(s)), ShotOf(s))
      invariant Depth(b) != 0 && known == [] ==> LeavesOf(g, file, b, k, ShotOf(s))
      invariant Depth(b) == 0 ==>
                  && s.ListOf(file) == Place(g, old(s.ListOf(file)), oldLen, Leaf(b)[..k])
                  && s.sectors == Point(g, old(s.sectors), file, Leaf(b)[..k])
                  && (forall f :: f != file ==> s.ListOf(f) == old(s.ListOf(f)))
                  && s.extents == old(s.extents) && s.extentFile == old(s.extentFile)
      invariant RecordOf(s) == old(RecordOf(s))
    {
      ghost var before, a := ViewOf(s), ShotOf(s);
      if Depth(b) != 0 {
        DiffIndexEntry(s, g, file, known, LeafBlockAt(b, k));
        if known != [] {
          SameTrans(old(ShotOf(s)), a, ShotOf(s));
        } else {
          LeavesStay(g, file, b, k, a, ShotOf(s));
        }
      } else {
        DiffExtent(s, g, file, oldLen, ExtentAt(b, k));
        assert Leaf(b)[..k + 1][..k] == Leaf(b)[..k] && Leaf(b)[..k + 1][k] == ExtentAt(b, k);
      }
      LaterTrans(s.garbage, old(ViewOf(s)), before, ViewOf(s));
      OnlyTrans(file, old(ShotOf(s)), a, ShotOf(s));
    }
    assert Leaf(b)[..entries] == Leaf(b);
    s.Flush();
  }

  /** The list and the pointers one inode's extents leave. */
  function InodeList(g: Geometry, list: seq<int>, inode: Inode, b: seq<Byte>): seq<int> {
    if HasExtents(inode.mode) then Place(g, list, |list|, Leaf(b)) else list
  }

  function InodePointers(g: Geometry, m: map<nat, Pointer>, file: nat, inode: Inode, b: seq<Byte>): map<nat, Pointer> {
    if HasExtents(inode.mode) then Point(g, m, file, Leaf(b)) else m
  }

  /** The last entry of a list is a sector of file data. */
  ghost predicate EndsInData(m: map<nat, Pointer>, list: seq<int>) {
    list != [] && list[|list| - 1] >= 0 && list[|list| - 1] in m && m[list[|list| - 1] as nat].FileData?
  }

  /** A whole block of file data that was queued for the sector has been published, and the queue is what
      that leaves. */
  ghost predicate LastExplained(g: Geometry, sector: nat, a: Shot, b: Shot) {
    sector in a.queued && |a.queued[sector]| == g.blockSize && sector in a.view.sectors && a.view.sectors[sector].FileData?
    && (a.view.sectors[sector].file, Size) in a.record.metadata ==>
      ExplainedIn(a.record.metadata, a.view.published, b.view.published, sector, a.view.sectors[sector], a.queued[sector],
                  g.blockSize, a.queued - {sector}, b.queued)
  }

  /** What follows an inode's metadata: its extents, then, when the file has grown, the write
      queued for its last block. `last0` is what the sector variable holds from the file before. */
  method FollowInode(s: KvStore, g: Geometry, file: nat, inode: Inode, b: seq<Byte>, oldSize: nat, last0: nat)
    returns (last: nat, ghost mid: Shot)
    requires Usable(g) && s.Valid()
    modifies s`sectors, s`queued, s`metadata, s`fileSectors, s`extents, s`extentFile, s`published, s`pending,
             s`outstanding, s`latest
    ensures s.Valid() && s.Fuel() <= old(s.Fuel()) && Later(s.garbage, old(ViewOf(s)), ViewOf(s))
    ensures old(s.Apart()) && !IsTable(old(s.sectors), last0) ==>
              RecordOf(s) == old(RecordOf(s)) && !IsTable(s.sectors, last)
    ensures var list, pointers := InodeList(g, old(s.ListOf(file)), inode, b),
                                  InodePointers(g, old(s.sectors), file, inode, b);
            (HasExtents(inode.mode) ==> Depth(b) == 0) && (oldSize < inode.size ==> EndsInData(pointers, list)) ==>
              && s.ListOf(file) == list && s.sectors == pointers
              && (forall f :: f != file ==> s.ListOf(f) == old(s.ListOf(f)))
              && RecordOf(s) == old(RecordOf(s))
    ensures !HasExtents(inode.mode) ==> mid == old(ShotOf(s))
    ensures OnlyFile(file, old(ShotOf(s)), mid)
    ensures oldSize >= inode.size ==> last == last0 && ShotOf(s) == mid
    ensures oldSize < inode.size ==>
              last == (var list := ListIn(mid.view.lists, file); if list == [] then last0 else AsSector(list[|list| - 1]))
    ensures oldSize < inode.size ==> LastExplained(g, last, mid, ShotOf(s))
    decreases s.Fuel(), 5
  {
    hide KvStore.Consistent, Listed, KvStore.Fuel, HasExtents, Place, Point, Depth, Leaf, Read, FieldsOf, Later,
         ListsApart, LastExplained, OnlyFile, LeavesOf;
    ghost var v0 := ViewOf(s);
    LaterSame(s.garbage, v0, v0);
    last := last0;
    SameStart(file, ShotOf(s));
    if HasExtents(inode.mode) {
      DiffExtents(s, g, file, b);
    }
    LaterMeans(s, v0, last0);
    mid := ShotOf(s);
    if oldSize < inode.size {
      ghost var v1 := ViewOf(s);
      last := CheckLast(s, g, file, last0);
      LaterTrans(s.garbage, v0, v1, ViewOf(s));
      LaterMeans(s, v1, last);
    }
  }

  /** The last block of a grown file: the write queued for the last sector of its list is inspected
      again. An empty list leaves the sector variable, `last0`, as it is. */
  method CheckLast(s: KvStore, g: Geometry, file: nat, last0: nat) returns (last: nat)
    requires Usable(g) && s.Valid()
    modifies s`sectors, s`queued, s`metadata, s`fileSectors, s`extents, s`extentFile, s`published, s`pending,
             s`outstanding, s`latest
    ensures s.Valid() && s.Fuel() <= old(s.Fuel()) && Later(s.garbage, old(ViewOf(s)), ViewOf(s))
    ensures last == (var list := old(s.ListOf(file)); if list == [] then last0 else AsSector(list[|list| - 1]))
    ensures !IsTable(old(s.sectors), last) ==> RecordOf(s) == old(RecordOf(s))
    ensures last in old(s.sectors) && old(s.sectors)[last].FileData? ==> SameIndex(s)
    ensures LastExplained(g, last, old(ShotOf(s)), ShotOf(s))
    decreases s.Fuel(), 2
  {
    hide KvStore.Consistent, Listed, KvStore.Fuel, FieldsOf, Later, Waiting, Requeues, ExplainedIn, OnlyFile;
    last := s.LastSector(file, last0);
    Reinspect(s, g, last);
  }

  /** One inode of __diff_inodes, at byte `at` of the block. With file data apart from the inode
      tables, and otherwise when the extents are a leaf and a grown file ends in file data, the
      record afterwards is that of the inode. */
  method DiffInode(s: KvStore, g: Geometry, file: nat, data: seq<Byte>, at: nat, last0: nat)
    returns (last: nat, values: seq<nat>, ghost mid: Shot)
    requires Usable(g) && s.Valid()
    modifies s`sectors, s`queued, s`metadata, s`fileSectors, s`extents, s`extentFile, s`published, s`pending,
             s`outstanding, s`latest
    ensures s.Valid() && s.Fuel() <= old(s.Fuel()) && Later(s.garbage, old(ViewOf(s)), ViewOf(s))
    ensures ReadFrom(old(s.metadata), file, values)
    ensures old(s.published) + Differences(file, InodeAt(data, at), values, |FIELDS|) <= s.published
    ensures old(s.Apart()) && !IsTable(old(s.sectors), last0) ==>
              RecordOf(s) == DiffedWith(old(RecordOf(s)), file, InodeAt(data, at), values) && !IsTable(s.sectors, last)
    ensures var inode, b := InodeAt(data, at), BlocksOf(data, at);
            var list, pointers := InodeList(g, old(s.ListOf(file)), inode, b),
                                  InodePointers(g, old(s.sectors), file, inode, b);
            (HasExtents(inode.mode) ==> Depth(b) == 0) && (values[1] < inode.size ==> EndsInData(pointers, list)) ==>
              && s.ListOf(file) == list && s.sectors == pointers
              && (forall f :: f != file ==> s.ListOf(f) == old(s.ListOf(f)))
              && RecordOf(s) == DiffedWith(old(RecordOf(s)), file, inode, values)
    ensures values[1] < InodeAt(data, at).size ==> LastExplained(g, last, mid, ShotOf(s))
    ensures values[1] < InodeAt(data, at).size && mid.view.lists == s.fileSectors && s.ListOf(file) != [] ==>
              last == AsSector(s.ListOf(file)[|s.ListOf(file)| - 1])
    decreases s.Fuel(), 6
  {
    hide KvStore.Consistent, KvStore.Fuel, InodeAt, HasExtents, Merge, Differences, ReadFrom,
         InodeList, InodePointers, EndsInData, Depth, BlocksOf, FieldsOf, Later, ListsApart, OnlyFile, LastExplained;
    ghost var v0 := ViewOf(s);
    var inode := InodeAt(data, at);
    values := DiffMetadata(s, file, inode);
    NineValues(old(s.metadata), file, values);
    ghost var v1 := ViewOf(s);
    MergeKeys(old(s.metadata), file, inode, values, |FIELDS|);
    LaterSame(s.garbage, v0, v1);
    last, mid := FollowInode(s, g, file, inode, BlocksOf(data, at), values[1], last0);
    LaterMeans(s, v1, last0);
    LaterTrans(s.garbage, v0, v1, ViewOf(s));
  }

  lemma NineValues(m: Metadata, file: nat, values: seq<nat>)
    requires ReadFrom(m, file, values)
    ensures |values| == |FIELDS| == 9
  {
  }

  /** What Later says of a sector that is not an inode table, and of the last entry of a list. */
  lemma LaterMeans(s: KvStore, a: View, sector: nat)
    requires Later(s.garbage, a, ViewOf(s))
    ensures !IsTable(a.sectors, sector) ==> !IsTable(s.sectors, sector)
    ensures a.published <= s.published && (ListsApart(a.sectors, a.lists, s.garbage) ==> s.Apart())
    ensures Listed(s.files, s.inodeOffset, a.keys) ==> s.Present()
    ensures s.Apart() ==> forall f :: s.ListOf(f) != [] ==> !IsTable(s.sectors, AsSector(s.ListOf(f)[|s.ListOf(f)| - 1]))
  {
    assert forall f :: AllFieldsIn(a.keys, f) ==> AllFieldsIn(s.metadata.Keys, f);
  }

  /** The i_block area of the inode at byte `at`, and what follows it. */
  function BlocksOf(data: seq<Byte>, at: nat): seq<Byte> {
    if at + 40 <= |data| then data[at + 40..] else []
  }

  /** __diff_inodes: every file whose inode lies in the written block. With file data apart from
      the inode tables, the record afterwards is that of the inodes in the block. */
  method DiffInodes(s: KvStore, g: Geometry, table: nat, data: seq<Byte>)
    requires Usable(g) && s.Valid()
    modifies s`sectors, s`queued, s`metadata, s`fileSectors, s`extents, s`extentFile, s`published, s`pending,
             s`outstanding, s`latest
    ensures s.Valid() && s.Fuel() <= old(s.Fuel()) && Later(s.garbage, old(ViewOf(s)), ViewOf(s))
    ensures old(s.Regular()) ==> RecordOf(s) == DiffedTable(s.files, s.inodeOffset, old(RecordOf(s)), table, data)
    decreases s.Fuel(), 7
  {
    hide KvStore.Consistent, KvStore.Fuel, InodeAt, InodeList, InodePointers, DiffedWith, Differences, DiffedFile, FieldsOf,
         Depth, HasExtents, EndsInData, BlocksOf, Read, Later, Listed, ListsApart, ReadFrom;
    LaterSame(s.garbage, ViewOf(s), ViewOf(s));
    var list := s.FilesOf(table);
    var last := s.Uninitialised();
    if s.Apart() {
      GarbageApart(s, last);
    }
    for i := 0 to |list|
      invariant s.Valid() && s.Fuel() <= old(s.Fuel()) && Later(s.garbage, old(ViewOf(s)), ViewOf(s))
      invariant old(s.Regular()) ==>
                  !IsTable(s.sectors, last) && RecordOf(s) == DiffedFiles(old(RecordOf(s)), list[..i], s.inodeOffset, data)
    {
      var at := s.GetInodeOffset(list[i]);
      ghost var before, r := ViewOf(s), RecordOf(s);
      LaterMeans(s, old(ViewOf(s)), last);
      var values;
      ghost var mid;
      last, values, mid := DiffInode(s, g, list[i], data, at, last);
      LaterTrans(s.garbage, old(ViewOf(s)), before, ViewOf(s));
      assert list[..i + 1][..i] == list[..i];
      if old(s.Regular()) {
        PresentIsDiffed(s.files, s.inodeOffset, r, table, list[i], InodeAt(data, at), values);
      }
    }
    assert list[..|list|] == list;
  }

  lemma GarbageApart(s: KvStore, v: nat)
    requires s.Apart() && (v == 0 || v in s.garbage)
    ensures !IsTable(s.sectors, v)
  {
  }

  lemma {:induction false} PresentIsDiffed(files: map<nat, seq<nat>>, offsets: map<nat, nat>, r: Record, table: nat, file: nat,
                                           inode: Inode, values: seq<nat>)
    requires Listed(files, offsets, r.metadata.Keys) && table in files && file in files[table]
    requires ReadFrom(r.metadata, file, values)
    ensures file in offsets && DiffedWith(r, file, inode, values) == DiffedFile(r, file, inode)
  {
    hide DiffedWith;
    StoredIsRead(r.metadata, file, values);
  }

  /** A leaf block has been diffed for the file recorded for it: list and pointers are those its
      extents leave, other files' lists are as before. */
  twostate predicate LeafDiffed(s: KvStore, g: Geometry, id: nat, data: seq<Byte>)
    reads s`sectors, s`fileSectors
  {
    id in old(s.extentFile) && Depth(data) == 0 ==>
      var file := old(s.extentFile)[id];
      && s.ListOf(file) == Place(g, old(s.ListOf(file)), |old(s.ListOf(file))|, Leaf(data))
      && s.sectors == Point(g, old(s.sectors), file, Leaf(data))
      && (forall f :: f != file ==> s.ListOf(f) == old(s.ListOf(f)))
  }

  /** __diff_extent_tree */
  method DiffExtentTree(s: KvStore, g: Geometry, id: nat, data: seq<Byte>)
    requires Usable(g) && s.Valid()
    modifies s`sectors, s`queued, s`metadata, s`fileSectors, s`extents, s`extentFile, s`published, s`pending,
             s`outstanding, s`latest
    ensures s.Valid() && s.Fuel() <= old(s.Fuel()) && Later(s.garbage, old(ViewOf(s)), ViewOf(s))
    ensures LeafDiffed(s, g, id, data)
    ensures RecordOf(s) == old(RecordOf(s))
    ensures id in old(s.extentFile) ==> OnlyFile(old(s.extentFile)[id], old(ShotOf(s)), ShotOf(s))
    decreases s.Fuel(), 5
  {
    hide KvStore.Consistent, OnlyFile, Listed, KvStore.Fuel, Depth, Leaf, Place, Point, Later, FieldsOf;
    var file := s.GetExtentFile(id);
    DiffExtents(s, g, file, data);
  }

  /** __qemu_dispatch_write */
  method Dispatch(s: KvStore, g: Geometry, data: seq<Byte>, p: Pointer, len: nat, sector: nat)
    requires Usable(g) && s.Valid() && len <= |data|
    modifies s`sectors, s`queued, s`metadata, s`fileSectors, s`extents, s`extentFile, s`published, s`pending,
             s`outstanding, s`latest
    ensures s.Valid() && s.Fuel() <= old(s.Fuel()) + 1 && Later(s.garbage, old(ViewOf(s)), ViewOf(s))
    ensures p.FileData? ==> SameIndex(s) && s.queued.Keys <= old(s.queued.Keys) + {sector}
    ensures p.FileData? && (p.file, Size) in s.metadata ==> Explained(s, old(s.published), sector, p, data, len, old(s.queued))
    ensures !p.InodeTable? ==> RecordOf(s) == old(RecordOf(s))
    ensures p.InodeTable? && old(s.Regular()) ==> RecordOf(s) == DiffedTable(s.files, s.inodeOffset, old(RecordOf(s)), p.id, data)
    ensures p.ExtentBlock? ==> LeafDiffed(s, g, p.id, data)
    ensures p.ExtentBlock? && p.id in old(s.extentFile) ==> OnlyFile(old(s.extentFile)[p.id], old(ShotOf(s)), ShotOf(s))
    decreases s.Fuel(), 8
  {
    hide KvStore.Consistent, OnlyFile, Listed, KvStore.Fuel, ListsApart, Depth, Leaf, Place, Point, Explained,
         DiffedTable, FieldsOf, Later;
    ghost var v0 := ViewOf(s);
    LaterSame(s.garbage, v0, v0);
    match p
    case FileData(_, _, _) =>
      EmitFileBytes(s, data, p, len, sector);
      LaterSame(s.garbage, v0, ViewOf(s));
    case Superblock(_) => DiffOther(s);
    case GroupDescriptors(_) => DiffOther(s);
    case InodeTable(id) => DiffInodes(s, g, id, data);
    case ExtentBlock(id) => DiffExtentTree(s, g, id, data);
    case MasterBoot(_) =>
    case Bitmap(_) =>
    case Directory(_) =>
  }

  /** What no write changes. */
  datatype Setting = Setting(files: map<nat, seq<nat>>, offsets: map<nat, nat>, garbage: set<nat>, g: Geometry)
  {
    ghost predicate Regular(v: View) {
      ListsApart(v.sectors, v.lists, garbage) && Listed(files, offsets, v.keys)
    }
  }

  ghost function SettingOf(s: KvStore, g: Geometry): Setting
    reads s`files, s`inodeOffset
  {
    Setting(s.files, s.inodeOffset, s.garbage, g)
  }

  /** The effect of the block at sector `i` of a write: an unknown block is queued under its own sector
      and nothing else changes; a block of file data is explained under the write's first sector; a leaf
      block changes the index of its file only; an inode table gives the record of its inodes, and
      nothing else changes the record. */
  ghost predicate BlockDone(t: Setting, w: BlockWrite, i: nat, a: Shot, b: Shot)
    requires w.Whole() && i < w.sectors
  {
    var at := w.sector + i;
    var block, rest := BlockAt(t.g, w.sectors, w.data, i), w.data[i * SECTOR_SIZE..];
    && Later(t.garbage, a.view, b.view)
    && (at !in a.view.sectors ==> SameShot(a, b) && b.queued == a.queued[at := block])
    && (at in a.view.sectors && a.view.sectors[at].FileData? ==>
          && SameShot(a, b) && b.queued.Keys <= a.queued.Keys + {w.sector}
          && ((a.view.sectors[at].file, Size) in a.record.metadata ==>
                ExplainedIn(a.record.metadata, a.view.published, b.view.published, w.sector, a.view.sectors[at], rest, |block|,
                            a.queued, b.queued)))
    && (at in a.view.sectors && a.view.sectors[at].ExtentBlock? && a.view.sectors[at].id in a.extentFile ==>
          OnlyFile(a.extentFile[a.view.sectors[at].id], a, b))
    && (!IsTable(a.view.sectors, at) ==> b.record == a.record)
    && (IsTable(a.view.sectors, at) && t.Regular(a.view) ==>
          b.record == DiffedTable(t.files, t.offsets, a.record, a.view.sectors[at].id, rest))
  }

  /** The pass of qemu_deep_inspect over the block at sector `i` of the write. */
  method InspectBlock(s: KvStore, g: Geometry, w: BlockWrite, i: nat)
    requires Usable(g) && s.Valid() && w.Whole() && i < w.sectors
    modifies s`sectors, s`queued, s`metadata, s`fileSectors, s`extents, s`extentFile, s`published, s`pending,
             s`outstanding, s`latest
    ensures s.Valid() && s.Fuel() <= old(s.Fuel()) + 1
    ensures BlockDone(SettingOf(s, g), w, i, old(ShotOf(s)), ShotOf(s))
    ensures w.sector + i in old(s.sectors) && old(s.sectors)[w.sector + i].ExtentBlock? ==>
              LeafDiffed(s, g, old(s.sectors)[w.sector + i].id, w.data[i * SECTOR_SIZE..])
    decreases s.Fuel(), 9
  {
    hide KvStore.Consistent, OnlyFile, Listed, KvStore.Fuel, ListsApart, ExplainedIn, Depth, Leaf, Place, Point,
         DiffedTable, FieldsOf, Later;
    LaterSame(s.garbage, ViewOf(s), ViewOf(s));
    var p := s.Lookup(w.sector + i);
    if p.Some? {
      Dispatch(s, g, w.data[i * SECTOR_SIZE..], p.value, |BlockAt(g, w.sectors, w.data, i)|, w.sector);
    } else {
      s.Enqueue(w.sector + i, BlockAt(g, w.sectors, w.data, i));
    }
  }

  /** The record after the blocks of a write from sector `i` on, of which those in `sectors0` that
      are inode tables change it. */
  ghost function DiffedWrite(files: map<nat, seq<nat>>, offsets: map<nat, nat>, r: Record, sectors0: map<nat, Pointer>,
                             g: Geometry, sectorNum: nat, sectors: nat, data: seq<Byte>, i: nat): Record
    requires Usable(g) && |data| >= sectors * SECTOR_SIZE
    decreases sectors - i
  {
    if i >= sectors then r else
    var next := if IsTable(sectors0, sectorNum + i) then
                  DiffedTable(files, offsets, r, sectors0[sectorNum + i].id, data[i * SECTOR_SIZE..])
                else r;
    DiffedWrite(files, offsets, next, sectors0, g, sectorNum, sectors, data, i + Step(g))
  }

  /** No inode table has been claimed by an extent. */
  ghost predicate TablesKept(was: map<nat, Pointer>, now: map<nat, Pointer>) {
    forall x :: IsTable(was, x) ==> x in now && now[x] == was[x]
  }

  /** After the blocks before sector `i` the record is on its way to that of the whole write, unless
      an inode table has been claimed meanwhile. */
  ghost predicate Recorded(files: map<nat, seq<nat>>, offsets: map<nat, nat>, r0: Record, was: View, g: Geometry,
                           sectorNum: nat, sectors: nat, data: seq<Byte>, r: Record, now: View, i: nat)
    requires Usable(g) && |data| >= sectors * SECTOR_SIZE
  {
    sectors <= Step(g) || TablesKept(was.sectors, now.sectors) ==>
      DiffedWrite(files, offsets, r, was.sectors, g, sectorNum, sectors, data, i) ==
      DiffedWrite(files, offsets, r0, was.sectors, g, sectorNum, sectors, data, 0)
  }

  lemma RecordStart(files: map<nat, seq<nat>>, offsets: map<nat, nat>, r0: Record, was: View, g: Geometry,
                    sectorNum: nat, sectors: nat, data: seq<Byte>)
    requires Usable(g) && |data| >= sectors * SECTOR_SIZE
    ensures Recorded(files, offsets, r0, was, g, sectorNum, sectors, data, r0, was, 0)
  {
  }

  /** The pass over one block takes the record one block further: a sector that is a table at the
      end was one all along. */
  lemma RecordStep(garbage: set<nat>, files: map<nat, seq<nat>>, offsets: map<nat, nat>, r0: Record, was: View, g: Geometry,
                   sectorNum: nat, sectors: nat, data: seq<Byte>, r: Record, before: View, r': Record, now: View, i: nat)
    requires Usable(g) && |data| >= sectors * SECTOR_SIZE && i < sectors
    requires sectors <= Step(g) ==> before.sectors == was.sectors
    requires Recorded(files, offsets, r0, was, g, sectorNum, sectors, data, r, before, i)
    requires Later(garbage, was, before) && Later(garbage, before, now)
    requires r' == if IsTable(before.sectors, sectorNum + i) then
                     DiffedTable(files, offsets, r, before.sectors[sectorNum + i].id, data[i * SECTOR_SIZE..])
                   else r
    ensures Recorded(files, offsets, r0, was, g, sectorNum, sectors, data, r', now, i + Step(g))
  {
    hide DiffedTable, ListsApart;
  }

  lemma RecordEnd(files: map<nat, seq<nat>>, offsets: map<nat, nat>, r0: Record, was: View, g: Geometry,
                  sectorNum: nat, sectors: nat, data: seq<Byte>, r: Record, now: View, i: nat)
    requires Usable(g) && |data| >= sectors * SECTOR_SIZE && i >= sectors
    requires Recorded(files, offsets, r0, was, g, sectorNum, sectors, data, r, now, i)
    ensures sectors <= Step(g) || TablesKept(was.sectors, now.sectors) ==>
              r == DiffedWrite(files, offsets, r0, was.sectors, g, sectorNum, sectors, data, 0)
  {
  }

  lemma QueueStep(m: map<nat, Pointer>, q: map<nat, seq<Byte>>, g: Geometry, sectorNum: nat, sectors: nat, data: seq<Byte>, i: nat)
    requires Usable(g) && |data| >= sectors * SECTOR_SIZE && i < sectors
    ensures NoneKnown(m, sectorNum, sectors, Step(g), i) ==>
              sectorNum + i !in m && NoneKnown(m, sectorNum, sectors, Step(g), i + Step(g))
    ensures Unexplained(q[sectorNum + i := BlockAt(g, sectors, data, i)], g, sectorNum, sectors, data, i + Step(g))
            == Unexplained(q, g, sectorNum, sectors, data, i)
  {
  }

  lemma QueueEnd(q: map<nat, seq<Byte>>, g: Geometry, sectorNum: nat, sectors: nat, data: seq<Byte>, i: nat)
    requires Usable(g) && |data| >= sectors * SECTOR_SIZE && i >= sectors
    ensures Unexplained(q, g, sectorNum, sectors, data, i) == q
  {
  }

  lemma BlocksStep(sectors: nat, step: nat)
    requires step > 0 && sectors > 0
    ensures Blocks(sectors, step) == 1 + Blocks(if sectors <= step then 0 else sectors - step, step)
  {
  }

  /** The effect of the blocks before sector `i` of a write. */
  ghost predicate WriteDone(t: Setting, w: BlockWrite, a: Shot, b: Shot, i: nat)
    requires Usable(t.g) && w.Whole()
  {
    && Later(t.garbage, a.view, b.view) && (i == 0 || i >= Step(t.g)) && (i == 0 ==> b == a)
    && (0 < w.sectors <= Step(t.g) && i > 0 ==> BlockDone(t, w, 0, a, b))
    && (NoneKnown(a.view.sectors, w.sector, w.sectors, Step(t.g), 0) ==>
          && SameShot(a, b) && NoneKnown(a.view.sectors, w.sector, w.sectors, Step(t.g), i)
          && Unexplained(b.queued, t.g, w.sector, w.sectors, w.data, i) == Unexplained(a.queued, t.g, w.sector, w.sectors, w.data, 0))
    && (t.Regular(a.view) ==>
          Recorded(t.files, t.offsets, a.record, a.view, t.g, w.sector, w.sectors, w.data, b.record, b.view, i))
  }

  lemma {:induction false} WriteStart(t: Setting, w: BlockWrite, a: Shot)
    requires Usable(t.g) && w.Whole()
    ensures WriteDone(t, w, a, a, 0)
  {
    hide ListsApart, Listed, Unexplained, NoneKnown, Recorded, BlockDone, Later;
    LaterSame(t.garbage, a.view, a.view);
    RecordStart(t.files, t.offsets, a.record, a.view, t.g, w.sector, w.sectors, w.data);
  }

  lemma {:induction false} WriteStep(t: Setting, w: BlockWrite, a: Shot, b: Shot, c: Shot, i: nat)
    requires Usable(t.g) && w.Whole() && i < w.sectors && WriteDone(t, w, a, b, i) && BlockDone(t, w, i, b, c)
    ensures WriteDone(t, w, a, c, i + Step(t.g))
  {
    hide ListsApart, Listed, Unexplained, NoneKnown, Recorded, Later, Step, Usable, BlockAt, DiffedTable, ExplainedIn, OnlyFile;
    StepIs(t.g);
    LaterTrans(t.garbage, a.view, b.view, c.view);
    QueueStep(a.view.sectors, b.queued, t.g, w.sector, w.sectors, w.data, i);
    if t.Regular(a.view) {
      RegularLater(t, a.view, b.view);
      RecordStep(t.garbage, t.files, t.offsets, a.record, a.view, t.g, w.sector, w.sectors, w.data, b.record, b.view, c.record,
                 c.view, i);
    }
  }

  lemma RegularLater(t: Setting, a: View, b: View)
    requires Later(t.garbage, a, b) && t.Regular(a)
    ensures t.Regular(b)
  {
    assert forall f :: AllFieldsIn(a.keys, f) ==> AllFieldsIn(b.keys, f);
  }

  lemma {:induction false} WriteEnd(t: Setting, w: BlockWrite, a: Shot, b: Shot, i: nat)
    requires Usable(t.g) && w.Whole() && i >= w.sectors && WriteDone(t, w, a, b, i)
    ensures w.sectors == 0 && i == 0 ==> b == a
    ensures 0 < w.sectors <= Step(t.g) ==> BlockDone(t, w, 0, a, b)
    ensures NoneKnown(a.view.sectors, w.sector, w.sectors, Step(t.g), 0) ==>
              SameShot(a, b) && b.queued == Unexplained(a.queued, t.g, w.sector, w.sectors, w.data, 0)
    ensures t.Regular(a.view) && (w.sectors <= Step(t.g) || TablesKept(a.view.sectors, b.view.sectors)) ==>
              b.record == DiffedWrite(t.files, t.offsets, a.record, a.view.sectors, t.g, w.sector, w.sectors, w.data, 0)
  {
    hide ListsApart, Listed, Unexplained, NoneKnown, Recorded, Later, BlockDone, DiffedWrite, Step, Usable, TablesKept;
    QueueEnd(b.queued, t.g, w.sector, w.sectors, w.data, i);
    if t.Regular(a.view) {
      RecordEnd(t.files, t.offsets, a.record, a.view, t.g, w.sector, w.sectors, w.data, b.record, b.view, i);
    }
  }

  /** qemu_deep_inspect: block by block, dispatch what the index knows and queue the rest. */
  method DeepInspect(s: KvStore, g: Geometry, w: BlockWrite)
    requires Usable(g) && s.Valid() && w.Whole()
    modifies s`sectors, s`queued, s`metadata, s`fileSectors, s`extents, s`extentFile, s`published, s`pending,
             s`outstanding, s`latest
    ensures s.Valid() && s.pending == [] && Later(s.garbage, old(ViewOf(s)), ViewOf(s))
    ensures s.Fuel() <= old(s.Fuel()) + Blocks(w.sectors, Step(g))
    ensures 0 < w.sectors <= Step(g) ==> BlockDone(SettingOf(s, g), w, 0, old(ShotOf(s)), ShotOf(s))
    ensures NoneKnown(old(s.sectors), w.sector, w.sectors, Step(g), 0) ==>
              SameIndex(s) && s.queued == Unexplained(old(s.queued), g, w.sector, w.sectors, w.data, 0)
    ensures old(s.Regular()) && (w.sectors <= Step(g) || TablesKept(old(s.sectors), s.sectors)) ==>
              RecordOf(s) == DiffedWrite(s.files, s.inodeOffset, old(RecordOf(s)), old(s.sectors), g, w.sector, w.sectors, w.data, 0)
    decreases s.Fuel() + Blocks(w.sectors, Step(g)), 0
  {
    hide KvStore.Consistent, KvStore.Fuel, ListsApart, Listed, Unexplained, NoneKnown, Recorded, Later, BlockDone, WriteDone,
         DiffedWrite, Step, Usable, TablesKept, Blocks, LeafDiffed, FieldsOf;
    StepIs(g);
    ghost var t, a := SettingOf(s, g), ShotOf(s);
    var i, step := 0, Step(g);
    WriteStart(t, w, a);
    while i < w.sectors
      invariant s.Valid() && WriteDone(t, w, a, ShotOf(s), i)
      invariant s.Fuel() + Blocks(if i <= w.sectors then w.sectors - i else 0, step) <= old(s.Fuel()) + Blocks(w.sectors, step)
      decreases w.sectors - i
    {
      ghost var before := ShotOf(s);
      BlocksStep(w.sectors - i, step);
      InspectBlock(s, g, w, i);
      WriteStep(t, w, a, before, ShotOf(s), i);
      i := i + step;
    }
    WriteEnd(t, w, a, ShotOf(s), i);
    WriteLater(t, w, a, ShotOf(s), i);
    s.Flush();
  }

  lemma WriteLater(t: Setting, w: BlockWrite, a: Shot, b: Shot, i: nat)
    requires Usable(t.g) && w.Whole() && WriteDone(t, w, a, b, i)
    ensures Later(t.garbage, a.view, b.view)
  {
  }

  // ------------------------------------------------------------------ runs

  ghost function DiffedRun(files: map<nat, seq<nat>>, offsets: map<nat, nat>, r: Record, sectors0: map<nat, Pointer>,
                           g: Geometry, writes: seq<BlockWrite>): Record
    requires Usable(g) && forall i :: 0 <= i < |writes| ==> writes[i].Whole()
  {
    if writes == [] then r else
    var n := |writes| - 1;
    assert writes[n].Whole();
    DiffedWrite(files, offsets, DiffedRun(files, offsets, r, sectors0, g, writes[..n]), sectors0, g, writes[n].sector,
                writes[n].sectors, writes[n].data, 0)
  }

  /** Only the tables of an index matter to the record. */
  lemma {:induction false} SameTables(files: map<nat, seq<nat>>, offsets: map<nat, nat>, r: Record, a: map<nat, Pointer>,
                                      b: map<nat, Pointer>, g: Geometry, sectorNum: nat, sectors: nat, data: seq<Byte>, i: nat)
    requires Usable(g) && |data| >= sectors * SECTOR_SIZE && TablesKept(a, b) && TablesKept(b, a)
    ensures DiffedWrite(files, offsets, r, a, g, sectorNum, sectors, data, i) ==
            DiffedWrite(files, offsets, r, b, g, sectorNum, sectors, data, i)
    decreases sectors - i
  {
    hide DiffedTable;
    if i < sectors {
      var next := if IsTable(a, sectorNum + i) then
                    DiffedTable(files, offsets, r, a[sectorNum + i].id, data[i * SECTOR_SIZE..])
                  else r;
      SameTables(files, offsets, next, a, b, g, sectorNum, sectors, data, i + Step(g));
    }
  }

  lemma KeptBetween(garbage: set<nat>, was: View, before: View, now: View)
    requires Later(garbage, was, before) && Later(garbage, before, now) && TablesKept(was.sectors, now.sectors)
    ensures TablesKept(was.sectors, before.sectors) && TablesKept(before.sectors, was.sectors)
    ensures TablesKept(before.sectors, now.sectors)
  {
    hide ListsApart;
  }

  lemma OneBlock(files: map<nat, seq<nat>>, offsets: map<nat, nat>, r: Record, sectors0: map<nat, Pointer>, g: Geometry, w: BlockWrite)
    requires Usable(g) && w.Whole() && 0 < w.sectors <= Step(g) && IsTable(sectors0, w.sector)
    ensures DiffedWrite(files, offsets, r, sectors0, g, w.sector, w.sectors, w.data, 0) ==
            DiffedTable(files, offsets, r, sectors0[w.sector].id, w.data)
  {
    hide DiffedTable;
    assert w.data[0..] == w.data;
  }

  /** The stored metadata and the latest inode of every file of a table are those in its block. */
  ghost predicate Current(s: KvStore, table: nat, data: seq<Byte>)
    reads s`files, s`inodeOffset, s`metadata, s`latest
  {
    table in s.files ==>
      forall f :: f in s.files[table] ==>
        && f in s.inodeOffset && f in s.latest && s.latest[f] == InodeAt(data, s.inodeOffset[f])
        && forall name: FieldName :: (f, name) in s.metadata && s.metadata[(f, name)] == s.latest[f].Field(name)
  }

  lemma {:induction false} TableIsCurrent(s: KvStore, g: Geometry, r: Record, sectors0: map<nat, Pointer>, w: BlockWrite)
    requires Usable(g) && w.Whole() && 0 < w.sectors <= Step(g) && IsTable(sectors0, w.sector)
    requires Listed(s.files, s.inodeOffset, r.metadata.Keys)
    requires RecordOf(s) == DiffedWrite(s.files, s.inodeOffset, r, sectors0, g, w.sector, w.sectors, w.data, 0)
    ensures Current(s, sectors0[w.sector].id, w.data)
  {
    hide InodeAt, DiffedFiles, DiffedWrite, Step, FieldsOf, AllFieldsIn;
    OneBlock(s.files, s.inodeOffset, r, sectors0, g, w);
    var table := sectors0[w.sector].id;
    if table in s.files {
      forall f | f in s.files[table]
        ensures f in s.inodeOffset && f in s.latest && s.latest[f] == InodeAt(w.data, s.inodeOffset[f])
      {
        DiffedFilesAre(r, s.files[table], s.inodeOffset, w.data, f, Size);
      }
      forall f, name: FieldName | f in s.files[table]
        ensures (f, name) in s.metadata && s.metadata[(f, name)] == s.latest[f].Field(name)
      {
        DiffedFilesAre(r, s.files[table], s.inodeOffset, w.data, f, name);
      }
    }
  }

  /** When the write was to a block of an inode table that still is one, its inodes are current. */
  ghost predicate EndsCurrent(s: KvStore, g: Geometry, w: BlockWrite)
    reads s
  {
    0 < w.sectors <= Step(g) && IsTable(s.sectors, w.sector) ==> Current(s, s.sectors[w.sector].id, w.data)
  }

  lemma TableBefore(garbage: set<nat>, a: View, b: View, sector: nat)
    requires Later(garbage, a, b) && IsTable(b.sectors, sector)
    ensures IsTable(a.sectors, sector) && a.sectors[sector] == b.sectors[sector]
  {
  }

  /** The inferencer's main loop. Over any run of writes, with file data apart from the inode tables
      and no table claimed by an extent, the stored metadata, the latest inodes and the field events
      are those of the inode-table blocks written, in order. Whatever extents have claimed, a block
      of an inode table just written is current. */
  method InspectRun(s: KvStore, g: Geometry, writes: seq<BlockWrite>)
    requires Usable(g) && s.Valid() && forall i :: 0 <= i < |writes| ==> writes[i].Whole()
    modifies s`sectors, s`queued, s`metadata, s`fileSectors, s`extents, s`extentFile, s`published, s`pending,
             s`outstanding, s`latest
    ensures s.Valid() && Later(s.garbage, old(ViewOf(s)), ViewOf(s))
    ensures old(s.Regular()) && TablesKept(old(s.sectors), s.sectors) ==>
              RecordOf(s) == DiffedRun(s.files, s.inodeOffset, old(RecordOf(s)), old(s.sectors), g, writes)
    ensures old(s.Regular()) && writes != [] ==> EndsCurrent(s, g, writes[|writes| - 1])
  {
    hide KvStore.Consistent, Listed, KvStore.Fuel, ListsApart, Later, DiffedWrite, TablesKept, FieldsOf, Usable,
         NoneKnown, Unexplained, Explained, Step, Blocks, Current, Listed;
    LaterSame(s.garbage, ViewOf(s), ViewOf(s));
    for k := 0 to |writes|
      invariant s.Valid() && Later(s.garbage, old(ViewOf(s)), ViewOf(s))
      invariant old(s.Regular()) && TablesKept(old(s.sectors), s.sectors) ==>
                  RecordOf(s) == DiffedRun(s.files, s.inodeOffset, old(RecordOf(s)), old(s.sectors), g, writes[..k])
      invariant old(s.Regular()) && k > 0 ==> EndsCurrent(s, g, writes[k - 1])
    {
      var w := writes[k];
      ghost var before, r := ViewOf(s), RecordOf(s);
      LaterMeans(s, old(ViewOf(s)), 0);
      DeepInspect(s, g, w);
      LaterTrans(s.garbage, old(ViewOf(s)), before, ViewOf(s));
      if old(s.Regular()) && TablesKept(old(s.sectors), s.sectors) {
        KeptBetween(s.garbage, old(ViewOf(s)), before, ViewOf(s));
        SameTables(s.files, s.inodeOffset, r, old(s.sectors), before.sectors, g, w.sector, w.sectors, w.data, 0);
      }
      if old(s.Regular()) && 0 < w.sectors <= Step(g) && IsTable(s.sectors, w.sector) {
        TableBefore(s.garbage, before, ViewOf(s), w.sector);
        TableIsCurrent(s, g, r, before.sectors, w);
      }
      assert writes[..k + 1][..k] == writes[..k];
    }
    assert writes[..|writes|] == writes;
  }

  /** The inode a block of a write holds for a file, if it is a block of an inode table that lists it. */
  function TableInode(files: map<nat, seq<nat>>, offsets: map<nat, nat>, sectors0: map<nat, Pointer>, at: nat, data: seq<Byte>,
                      f: nat): Option<Inode>
  {
    if IsTable(sectors0, at) && sectors0[at].id in files && f in files[sectors0[at].id] && f in offsets
    then Some(InodeAt(data, offsets[f])) else None
  }

  /** The last inode that the blocks of a write from sector `i` on hold for a file; `last` if none does. */
  ghost function WriteInode(files: map<nat, seq<nat>>, offsets: map<nat, nat>, sectors0: map<nat, Pointer>, g: Geometry, w: BlockWrite,
                            f: nat, i: nat, last: Option<Inode>): Option<Inode>
    requires Usable(g) && w.Whole()
    decreases w.sectors - i
  {
    if i >= w.sectors then last else
    var inode := TableInode(files, offsets, sectors0, w.sector + i, w.data[i * SECTOR_SIZE..], f);
    WriteInode(files, offsets, sectors0, g, w, f, i + Step(g), if inode.Some? then inode else last)
  }

  /** The inode in the last inode-table block written that lists the file. */
  ghost function RunInode(files: map<nat, seq<nat>>, offsets: map<nat, nat>, sectors0: map<nat, Pointer>, g: Geometry,
                          writes: seq<BlockWrite>, f: nat): Option<Inode>
    requires Usable(g) && forall i :: 0 <= i < |writes| ==> writes[i].Whole()
  {
    if writes == [] then None else
    var n := |writes| - 1;
    assert writes[n].Whole();
    WriteInode(files, offsets, sectors0, g, writes[n], f, 0, RunInode(files, offsets, sectors0, g, writes[..n], f))
  }

  /** A file's latest inode and a field of it are those of `last`; if there is none, those of `r0`. */
  ghost predicate Decided(r0: Record, d: Record, f: nat, name: FieldName, last: Option<Inode>) {
    match last
    case Some(inode) =>
      && f in d.latest && d.latest[f] == inode && (f, name) in d.metadata && d.metadata[(f, name)] == inode.Field(name)
    case None =>
      && (f in d.latest <==> f in r0.latest) && (f in r0.latest ==> d.latest[f] == r0.latest[f])
      && ((f, name) in r0.metadata ==> (f, name) in d.metadata && d.metadata[(f, name)] == r0.metadata[(f, name)])
  }

  lemma {:induction false} TableDecides(files: map<nat, seq<nat>>, offsets: map<nat, nat>, r0: Record, r: Record,
                                        sectors0: map<nat, Pointer>, at: nat, data: seq<Byte>, f: nat, name: FieldName,
                                        last: Option<Inode>)
    requires Listed(files, offsets, r.metadata.Keys) && Decided(r0, r, f, name, last) && IsTable(sectors0, at)
    ensures var d := DiffedTable(files, offsets, r, sectors0[at].id, data);
            var inode := TableInode(files, offsets, sectors0, at, data, f);
            d.metadata.Keys == r.metadata.Keys && Decided(r0, d, f, name, if inode.Some? then inode else last)
  {
    hide InodeAt, DiffedFiles, AllFieldsIn, Inode.Field;
    var table := sectors0[at].id;
    if table in files {
      DiffedFilesAre(r, files[table], offsets, data, f, name);
    }
  }

  lemma {:induction false} WriteDecides(files: map<nat, seq<nat>>, offsets: map<nat, nat>, r0: Record, r: Record,
                                        sectors0: map<nat, Pointer>, g: Geometry, w: BlockWrite, i: nat, f: nat, name: FieldName,
                                        last: Option<Inode>)
    requires Usable(g) && w.Whole() && Listed(files, offsets, r.metadata.Keys) && Decided(r0, r, f, name, last)
    ensures var d := DiffedWrite(files, offsets, r, sectors0, g, w.sector, w.sectors, w.data, i);
            d.metadata.Keys == r.metadata.Keys
            && Decided(r0, d, f, name, WriteInode(files, offsets, sectors0, g, w, f, i, last))
    decreases w.sectors - i
  {
    hide DiffedTable, Decided, Listed;
    if i < w.sectors {
      var at, data := w.sector + i, w.data[i * SECTOR_SIZE..];
      var inode := TableInode(files, offsets, sectors0, at, data, f);
      if IsTable(sectors0, at) {
        TableDecides(files, offsets, r0, r, sectors0, at, data, f, name, last);
        WriteDecides(files, offsets, r0, DiffedTable(files, offsets, r, sectors0[at].id, data), sectors0, g, w, i + Step(g), f, name,
                     if inode.Some? then inode else last);
      } else {
        WriteDecides(files, offsets, r0, r, sectors0, g, w, i + Step(g), f, name, last);
      }
    }
  }

  /** Over any run the last inode-table block written that lists a file decides: its latest inode and
      every field are those in that block, and a file no such block lists keeps what it had. */
  lemma {:induction false} LastTableDecides(files: map<nat, seq<nat>>, offsets: map<nat, nat>, r: Record, sectors0: map<nat, Pointer>,
                                            g: Geometry, writes: seq<BlockWrite>, f: nat, name: FieldName)
    requires Usable(g) && (forall i :: 0 <= i < |writes| ==> writes[i].Whole()) && Listed(files, offsets, r.metadata.Keys)
    ensures var d := DiffedRun(files, offsets, r, sectors0, g, writes);
            d.metadata.Keys == r.metadata.Keys
            && Decided(r, d, f, name, RunInode(files, offsets, sectors0, g, writes, f))
    decreases |writes|
  {
    if writes != [] {
      hide Decided, Listed, DiffedWrite, WriteInode, Usable;
      var n := |writes| - 1;
      assert writes[n].Whole();
      LastTableDecides(files, offsets, r, sectors0, g, writes[..n], f, name);
      WriteDecides(files, offsets, r, DiffedRun(files, offsets, r, sectors0, g, writes[..n]), sectors0, g, writes[n], 0, f, name,
                   RunInode(files, offsets, sectors0, g, writes[..n], f));
    }
  }
}
