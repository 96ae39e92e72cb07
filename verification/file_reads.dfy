/**
 From an inode's extents to the bytes the FUSE file system returns: the inference engine diffs a
 leaf into the file's sector list (deep_inspection.c), and gammarayfs_read follows that list. The
 file system serves 4096-byte blocks.
 */
module FileReads {
  import opened Bytes
  import opened ExtentIndex
  import GrayFs
  import opened KvStores
  import Inference

  /** Where the format puts block `i` of an extent on the disk. */
  function Address(g: Geometry, e: Extent, i: nat): nat {
    (e.start + i) * g.blockSize + g.offset
  }

  /** A geometry both programs agree on: blocks of the served size, a partition on a sector boundary,
      no address past 64 bits. */
  ghost predicate Plain(g: Geometry, es: seq<Extent>) {
    && g.blockSize == GrayFs.BLOCK && g.offset % SECTOR_SIZE == 0
    && forall k :: 0 <= k < |es| ==> Address(g, es[k], es[k].len) < TWO64
  }

  ghost predicate Fits(disk: seq<Byte>, g: Geometry, es: seq<Extent>) {
    forall k :: 0 <= k < |es| ==> Address(g, es[k], es[k].len) <= |disk|
  }

  lemma {:induction false} SectorIsAddress(g: Geometry, e: Extent, i: nat)
    requires g.blockSize == GrayFs.BLOCK && g.offset % SECTOR_SIZE == 0 && i < e.len && Address(g, e, e.len) < TWO64
    ensures BlockSector(g, e, i) * SECTOR_SIZE == Address(g, e, i)
    ensures Address(g, e, i) + GrayFs.BLOCK <= Address(g, e, e.len)
  {
    var block := e.start + i;
    assert Address(g, e, e.len) == GrayFs.BLOCK * (e.start + e.len) + g.offset;
    assert Address(g, e, i) == GrayFs.BLOCK * block + g.offset;
    assert block % TWO64 == block;
  }

  /** The extent that holds a block of the file. */
  ghost function Holding(es: seq<Extent>, b: nat): (r: Option<Extent>)
    ensures r.Some? ==> r.value in es && Covers(r.value, b)
    ensures r.None? ==> !Covered(es, b)
  {
    if es == [] then None else
    var n := |es| - 1;
    PrefixCovered(es);
    if Covers(es[n], b) then Some(es[n]) else Holding(es[..n], b)
  }

  /** Byte `p` of a file with these extents, as the format lays it out; a block of none is zeros. */
  ghost function LayoutByte(disk: seq<Byte>, g: Geometry, es: seq<Extent>, p: nat): Byte
    requires g.blockSize == GrayFs.BLOCK && Fits(disk, g, es)
  {
    match Holding(es, GrayFs.BlockOf(p))
    case None => 0
    case Some(e) =>
      GrayFs.Split(p);
      var i := GrayFs.BlockOf(p) - e.block;
      AddressInside(g, e, i);
      disk[Address(g, e, i) + GrayFs.Within(p)]
  }

  lemma AddressInside(g: Geometry, e: Extent, i: nat)
    requires g.blockSize == GrayFs.BLOCK && i < e.len
    ensures Address(g, e, i) + GrayFs.BLOCK <= Address(g, e, e.len)
  {
  }

  ghost function LayoutBytes(disk: seq<Byte>, g: Geometry, es: seq<Extent>, size: nat): (r: seq<Byte>)
    requires g.blockSize == GrayFs.BLOCK && Fits(disk, g, es)
    ensures |r| == size
  {
    seq(size, p requires 0 <= p < size => LayoutByte(disk, g, es, p))
  }

  /** A list that names nothing for blocks outside the extents. */
  ghost predicate HolesElsewhere(list: seq<int>, es: seq<Extent>) {
    forall b :: 0 <= b < |list| && !Covered(es, b) ==> list[b] == HOLE
  }

  /** The entry the diff leaves for a block: the sector of its address, or a hole. */
  ghost predicate EntryIs(g: Geometry, entry: int, e: Option<Extent>, b: nat)
    requires e.Some? ==> Covers(e.value, b)
  {
    match e
    case None => entry == HOLE
    case Some(x) => entry >= 0 && entry * SECTOR_SIZE == Address(g, x, b - x.block)
  }

  lemma {:induction false} DiffedEntry(g: Geometry, list: seq<int>, es: seq<Extent>, b: nat)
    requires Plain(g, es) && Sorted(es) && LastAloneGrows(|list|, es) && HolesElsewhere(list, es)
    requires b < |Place(g, list, |list|, es)|
    ensures EntryIs(g, Place(g, list, |list|, es)[b], Holding(es, b), b)
  {
    hide Place, BlockSector, Address, PlaceBlocks;
    PlaceLocates(g, list, es);
    var r := Place(g, list, |list|, es);
    match Holding(es, b)
    case None =>
    case Some(e) =>
      var k :| 0 <= k < |es| && es[k] == e;
      assert LocatedOne(g, r, e);
      assert r[b] == r[e.block..e.block + e.len][b - e.block] == BlockSector(g, e, b - e.block);
      SectorIsAddress(g, e, b - e.block);
  }

  lemma {:induction false} DiffedOnDisk(disk: seq<Byte>, g: Geometry, list: seq<int>, es: seq<Extent>)
    requires Plain(g, es) && Sorted(es) && LastAloneGrows(|list|, es) && HolesElsewhere(list, es) && Fits(disk, g, es)
    ensures GrayFs.OnDisk(disk, Place(g, list, |list|, es))
  {
    hide Place, Address;
    var r := Place(g, list, |list|, es);
    forall b | 0 <= b < |r| && r[b] >= 0 ensures r[b] * SECTOR_SIZE + GrayFs.BLOCK <= |disk| {
      DiffedEntry(g, list, es, b);
      var e := Holding(es, b).value;
      AddressInside(g, e, b - e.block);
    }
  }

  /** After the diff, each byte of the list's file is the byte the format has there. */
  lemma {:induction false} DiffedByte(disk: seq<Byte>, g: Geometry, list: seq<int>, es: seq<Extent>, p: nat)
    requires Plain(g, es) && Sorted(es) && LastAloneGrows(|list|, es) && HolesElsewhere(list, es) && Fits(disk, g, es)
    requires p < GrayFs.BLOCK * |Place(g, list, |list|, es)| && GrayFs.OnDisk(disk, Place(g, list, |list|, es))
    ensures GrayFs.FileByte(disk, Place(g, list, |list|, es), p) == LayoutByte(disk, g, es, p)
  {
    hide Place, Address;
    GrayFs.Split(p);
    DiffedEntry(g, list, es, GrayFs.BlockOf(p));
  }

  lemma {:induction false} DiffedBytes(disk: seq<Byte>, g: Geometry, list: seq<int>, es: seq<Extent>, size: nat)
    requires Plain(g, es) && Sorted(es) && LastAloneGrows(|list|, es) && HolesElsewhere(list, es) && Fits(disk, g, es)
    requires size <= GrayFs.BLOCK * |Place(g, list, |list|, es)| && GrayFs.OnDisk(disk, Place(g, list, |list|, es))
    ensures GrayFs.FileBytes(disk, Place(g, list, |list|, es), size) == LayoutBytes(disk, g, es, size)
  {
    hide Place, LayoutByte, GrayFs.FileByte;
    var list' := Place(g, list, |list|, es);
    forall p | 0 <= p < size
      ensures GrayFs.FileBytes(disk, list', size)[p] == LayoutBytes(disk, g, es, size)[p]
    {
      DiffedByte(disk, g, list, es, p);
    }
  }

  /** A read through the list the diff leaves, for every offset and size: the bytes of the extents'
      blocks, zeros between them. */
  method ReadAfterDiff(disk: seq<Byte>, g: Geometry, list: seq<int>, es: seq<Extent>, fileSize: nat, buf: array<Byte>,
                       size: nat, offset: nat) returns (r: int)
    requires Plain(g, es) && Sorted(es) && LastAloneGrows(|list|, es) && HolesElsewhere(list, es) && Fits(disk, g, es)
    requires size <= buf.Length && offset <= fileSize <= GrayFs.BLOCK * |Place(g, list, |list|, es)|
    modifies buf
    ensures r == Min(size, fileSize - offset)
    ensures buf[..r] == LayoutBytes(disk, g, es, fileSize)[offset..offset + r]
  {
    hide Place, LayoutBytes, GrayFs.FileBytes, GrayFs.OnDisk, GrayFs.Filled;
    DiffedOnDisk(disk, g, list, es);
    DiffedBytes(disk, g, list, es, fileSize);
    r := GrayFs.Read(disk, Place(g, list, |list|, es), fileSize, buf, size, offset);
  }

  // ---------------------------------------------------------------- exactly when

  /** Every block of an extent that the list reaches reads as the format has it, on every disk that
      holds what list and extents name. */
  ghost predicate ReadsRight(g: Geometry, es: seq<Extent>, r: seq<int>)
    requires g.blockSize == GrayFs.BLOCK
  {
    forall disk, p: nat :: Fits(disk, g, es) && GrayFs.OnDisk(disk, r) && p < GrayFs.BLOCK * |r| ==>
      GrayFs.FileByte(disk, r, p) == LayoutByte(disk, g, es, p)
  }

  /** Large enough for everything in the list. */
  ghost function ListEnd(r: seq<int>): (n: nat)
    ensures forall b :: 0 <= b < |r| && r[b] >= 0 ==> r[b] * SECTOR_SIZE + GrayFs.BLOCK <= n
  {
    if r == [] then 0 else
    var k := |r| - 1;
    var m := ListEnd(r[..k]);
    assert forall b :: 0 <= b < k ==> r[..k][b] == r[b];
    Max(m, if r[k] >= 0 then r[k] * SECTOR_SIZE + GrayFs.BLOCK else 0)
  }

  ghost function ExtentsEnd(g: Geometry, es: seq<Extent>): (n: nat)
    ensures forall k :: 0 <= k < |es| ==> Address(g, es[k], es[k].len) <= n
  {
    if es == [] then 0 else
    var k := |es| - 1;
    var m := ExtentsEnd(g, es[..k]);
    assert forall j :: 0 <= j < k ==> es[..k][j] == es[j];
    Max(m, Address(g, es[k], es[k].len))
  }

  lemma {:induction false} HoleReadsWrong(g: Geometry, es: seq<Extent>, r: seq<int>, k: nat)
    requires g.blockSize == GrayFs.BLOCK && k < |es| && es[k].len > 0 && es[k].block < |r| && r[es[k].block] == HOLE
    ensures !ReadsRight(g, es, r)
  {
    hide Address;
    var n := Max(ListEnd(r), ExtentsEnd(g, es));
    var disk: seq<Byte> := seq(n, _ => 1);
    assert Fits(disk, g, es) && GrayFs.OnDisk(disk, r);
    var b := es[k].block;
    var p := GrayFs.BLOCK * b;
    assert Covers(es[k], b) && Covered(es, b);
    assert GrayFs.BlockOf(p) == b && GrayFs.Within(p) == 0;
    var e := Holding(es, b).value;
    AddressInside(g, e, b - e.block);
    assert disk[Address(g, e, b - e.block)] == 1;
    assert GrayFs.FileByte(disk, r, p) == 0 && LayoutByte(disk, g, es, p) == 1;
  }

  /** The list the diff leaves reads as the file, on every disk, if and only if no extent but the last
      reaches past the end the list had before. */
  lemma {:induction false} ReadsRightIff(g: Geometry, list: seq<int>, es: seq<Extent>)
    requires Plain(g, es) && Sorted(es) && HolesElsewhere(list, es)
    ensures ReadsRight(g, es, Place(g, list, |list|, es)) <==> LastAloneGrows(|list|, es)
  {
    hide Place, LayoutByte, GrayFs.FileByte, GrayFs.OnDisk, Fits;
    var r := Place(g, list, |list|, es);
    if LastAloneGrows(|list|, es) {
      forall disk, p: nat | Fits(disk, g, es) && GrayFs.OnDisk(disk, r) && p < GrayFs.BLOCK * |r|
        ensures GrayFs.FileByte(disk, r, p) == LayoutByte(disk, g, es, p)
      {
        DiffedByte(disk, g, list, es, p);
      }
    } else {
      var j := FirstGrowing(list, es, |es| - 1);
      PlaceMisplaces(g, list, es, j);
      HoleReadsWrong(g, es, r, j + 1);
    }
  }

  // ---------------------------------------------------------------- published bytes

  lemma {:induction false} HoldingIs(es: seq<Extent>, k: nat, b: nat)
    requires Sorted(es) && k < |es| && Covers(es[k], b)
    ensures Holding(es, b) == Some(es[k])
    decreases |es|
  {
    var n := |es| - 1;
    if k < n {
      assert es[k].block + es[k].len <= es[n].block;
      SortedPrefix(es, n);
      HoldingIs(es[..n], k, b);
    }
  }

  lemma {:induction false} LayoutSlice(disk: seq<Byte>, g: Geometry, es: seq<Extent>, k: nat, i: nat, t: nat)
    requires g.blockSize == GrayFs.BLOCK && Fits(disk, g, es) && Sorted(es) && k < |es| && i < es[k].len && t < GrayFs.BLOCK
    ensures Address(g, es[k], i) + t < |disk|
    ensures LayoutByte(disk, g, es, (es[k].block + i) * GrayFs.BLOCK + t) == disk[Address(g, es[k], i) + t]
  {
    hide Address;
    var p := (es[k].block + i) * GrayFs.BLOCK + t;
    assert GrayFs.BlockOf(p) == es[k].block + i && GrayFs.Within(p) == t;
    HoldingIs(es, k, es[k].block + i);
    AddressInside(g, es[k], i);
  }

  /** A write to a block of a diffed leaf, once it is on the disk: what is published, with the pointer the
      diff has left, is the slice of the file from the block's start, cut at the end of the file. Bytes
      of a block before the file's last are no longer queued, those up to the end of the file are. */
  lemma {:induction false} PublishedIsFile(disk: seq<Byte>, g: Geometry, sectors: map<nat, Pointer>, es: seq<Extent>, k: nat, i: nat,
                                           file: nat, m: Metadata, was: seq<Event>, now: seq<Event>, data: seq<Byte>, len: nat,
                                           q: map<nat, seq<Byte>>, q': map<nat, seq<Byte>>)
    requires Plain(g, es) && Sorted(es) && OneBlockPerSector(g, es) && Fits(disk, g, es) && k < |es| && i < es[k].len
    requires len <= GrayFs.BLOCK && len <= |data| && Address(g, es[k], i) + len <= |disk|
    requires disk[Address(g, es[k], i)..Address(g, es[k], i) + len] == data[..len]
    requires (file, Size) in m && (es[k].block + i) * GrayFs.BLOCK <= m[(file, Size)] < TWO64
    requires var sector := BlockSector(g, es[k], i); var r := Point(g, sectors, file, es);
             && sector in r && r[sector].FileData? && r[sector].file == file
             && Inference.ExplainedIn(m, was, now, sector, r[sector], data, len, q, q')
    ensures var start, size := (es[k].block + i) * GrayFs.BLOCK, m[(file, Size)];
            && |now| == |was| + 1 && now[|was|].DataEvent? && now[|was|].file == file && now[|was|].start == start
            && |now[|was|].bytes| == Min(len, size - start)
            && now[|was|].bytes == LayoutBytes(disk, g, es, size)[start..start + Min(len, size - start)]
            && (start + GrayFs.BLOCK < size ==> q' == q - {BlockSector(g, es[k], i)})
            && (start + GrayFs.BLOCK >= size && start + len >= size ==> q' == q[BlockSector(g, es[k], i) := data[..size - start]])
  {
    hide Point, Inference.ExplainedIn, LayoutByte, Address, BlockSector;
    PointersAreRight(g, sectors, file, es, k, i);
    var sector := BlockSector(g, es[k], i);
    var p := BlockPointer(g, file, es[k], i);
    Inference.PartOfFile(m, was, now, sector, p, data, len, q, q');
    var start, size := (es[k].block + i) * GrayFs.BLOCK, m[(file, Size)];
    forall t | 0 <= t < Min(len, size - start)
      ensures now[|was|].bytes[t] == LayoutBytes(disk, g, es, size)[start + t]
    {
      LayoutSlice(disk, g, es, k, i, t);
      assert disk[Address(g, es[k], i)..Address(g, es[k], i) + len][t] == data[..len][t];
    }
  }
}
