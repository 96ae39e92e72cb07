/**
 The on-disk structures of ext4 as the headers declare them (ext4.h), and the proof that both
 programs read them back: the crawler through its caches, the inference engine from the blocks
 written.
 */
module Ext4Layout {
  import opened Bytes
  import opened Arithmetic
  import opened Structs
  import opened KvStores
  import opened ExtentIndex
  import Inference
  import Ext4Inodes

  const TWO16: nat := 0x1_0000

  lemma Radixes()
    ensures Radix(2) == TWO16 && Radix(4) == TWO32
  {
    assert Radix(3) == 256 * TWO16;
  }

  /** A number in a struct, read as the engine reads it. */
  lemma {:induction false} ReadAt(b: seq<Byte>, at: nat, s: seq<Slot>, k: nat, from: nat)
    requires At(b, at, Pack(s)) && k < |s| && from == Start(s, k)
    requires s[k].Num? && s[k].value < Radix(s[k].width)
    ensures Inference.Read(b, at + from, s[k].width) == s[k].value
  {
    NumberAt(b, at, s, k);
  }

  // ---------------------------------------------------------------- inodes

  /** What an inode holds beside the fields the engine compares. */
  datatype Rest = Rest(dtime: nat, blocks: nat, flags: nat, osd1: seq<Byte>, block: seq<Byte>, generation: nat, acl: nat,
                       tail: seq<Byte>)
  {
    predicate Valid() { |osd1| == 4 && |block| == 60 && |tail| == 44 }
  }

  predicate InRange(i: Inode) {
    && i.mode < TWO16 && i.uid < TWO16 && i.size < TWO64 && i.atime < TWO32 && i.ctime < TWO32 && i.mtime < TWO32
    && i.gid < TWO16 && i.links < TWO16
  }

  /** The fields of struct ext4_inode, in order. */
  function InodeSlots(i: Inode, r: Rest): seq<Slot> {
    [Num(i.mode, 2), Num(i.uid, 2), Num(i.size % TWO32, 4), Num(i.atime, 4), Num(i.ctime, 4), Num(i.mtime, 4), Num(r.dtime, 4),
     Num(i.gid, 2), Num(i.links, 2), Num(r.blocks, 4), Num(r.flags, 4), Raw(r.osd1), Raw(r.block), Num(r.generation, 4),
     Num(r.acl, 4), Num(i.size / TWO32, 4), Raw(r.tail)]
  }

  function EncodeInode(i: Inode, r: Rest): seq<Byte> {
    Pack(InodeSlots(i, r))
  }

  lemma {:induction false} InodeStarts(i: Inode, r: Rest)
    requires r.Valid()
    ensures var s := InodeSlots(i, r);
            && Start(s, 0) == 0 && Start(s, 1) == 2 && Start(s, 2) == 4 && Start(s, 3) == 8 && Start(s, 4) == 12
            && Start(s, 5) == 16 && Start(s, 7) == 24 && Start(s, 8) == 26 && Start(s, 12) == 40 && Start(s, 15) == 108
            && |EncodeInode(i, r)| == Ext4Inodes.INODE
  {
    var s := InodeSlots(i, r);
    PackLength(s);
    FirstStarts(i, r);
    hide Start, Pack, ToLe;
    Next(s, 8);
    Next(s, 9);
    Next(s, 10);
    Next(s, 11);
    Next(s, 12);
    Next(s, 13);
    Next(s, 14);
    Next(s, 15);
    Next(s, 16);
  }

  lemma {:induction false} FirstStarts(i: Inode, r: Rest)
    ensures var s := InodeSlots(i, r);
            && Start(s, 0) == 0 && Start(s, 1) == 2 && Start(s, 2) == 4 && Start(s, 3) == 8 && Start(s, 4) == 12
            && Start(s, 5) == 16 && Start(s, 7) == 24 && Start(s, 8) == 26
  {
    var s := InodeSlots(i, r);
    assert Start(s, 0) == 0;
    hide Start, ToLe;
    Next(s, 0);
    Next(s, 1);
    Next(s, 2);
    Next(s, 3);
    Next(s, 4);
    Next(s, 5);
    Next(s, 6);
    Next(s, 7);
  }

  lemma Next(s: seq<Slot>, k: nat)
    requires k < |s|
    ensures Start(s, k + 1) == Start(s, k) + (if s[k].Num? then s[k].width else |s[k].bytes|)
  {
  }

  lemma {:induction false} BlockArea(b: seq<Byte>, at: nat, s: seq<Slot>, block: seq<Byte>)
    requires At(b, at, Pack(s)) && 12 < |s| && Start(s, 12) == 40 && s[12] == Raw(block) && |block| == 60
    ensures block <= Inference.BlocksOf(b, at)
  {
    FieldAt(b, at, s, 12);
    assert b[at + 40..][..60] == b[at + 40..at + 100];
  }

  lemma {:induction false} FirstFields(b: seq<Byte>, at: nat, i: Inode, r: Rest)
    requires InRange(i) && r.Valid() && At(b, at, EncodeInode(i, r))
    ensures Inference.Read(b, at, 2) == i.mode && Inference.Read(b, at + 2, 2) == i.uid
    ensures Inference.Read(b, at + 4, 4) == i.size % TWO32 && Inference.Read(b, at + 8, 4) == i.atime
    ensures Inference.Read(b, at + 12, 4) == i.ctime
  {
    var s := InodeSlots(i, r);
    InodeStarts(i, r);
    Radixes();
    hide At, Start, Pack, Inference.Read, Radix, Slot.Image;
    ReadAt(b, at, s, 0, 0);
    ReadAt(b, at, s, 1, 2);
    ReadAt(b, at, s, 2, 4);
    ReadAt(b, at, s, 3, 8);
    ReadAt(b, at, s, 4, 12);
  }

  lemma {:induction false} LastFields(b: seq<Byte>, at: nat, i: Inode, r: Rest)
    requires InRange(i) && r.Valid() && At(b, at, EncodeInode(i, r))
    ensures Inference.Read(b, at + 16, 4) == i.mtime && Inference.Read(b, at + 24, 2) == i.gid
    ensures Inference.Read(b, at + 26, 2) == i.links && Inference.Read(b, at + 108, 4) == i.size / TWO32
    ensures r.block <= Inference.BlocksOf(b, at)
  {
    var s := InodeSlots(i, r);
    InodeStarts(i, r);
    Radixes();
    hide At, Start, Pack, Inference.Read, Radix, Slot.Image, Inference.BlocksOf;
    ReadAt(b, at, s, 5, 16);
    ReadAt(b, at, s, 7, 24);
    ReadAt(b, at, s, 8, 26);
    ReadAt(b, at, s, 15, 108);
    BlockArea(b, at, s, r.block);
  }

  /** An inode that stands anywhere in a buffer is read as it was encoded, and so is its block area. */
  lemma {:induction false} InodeReadsBack(b: seq<Byte>, at: nat, i: Inode, r: Rest)
    requires InRange(i) && r.Valid() && At(b, at, EncodeInode(i, r))
    ensures Inference.InodeAt(b, at) == i
    ensures r.block <= Inference.BlocksOf(b, at)
  {
    hide At, EncodeInode, Inference.Read, Inference.BlocksOf, InRange;
    FirstFields(b, at, i, r);
    LastFields(b, at, i, r);
    Halves(i.size);
  }

  /** The record after a block of an inode table: every file whose inode was encoded in it has each field
      as encoded. */
  lemma {:induction false} TableReadsBack(r: Inference.Record, files: seq<nat>, offsets: map<nat, nat>, data: seq<Byte>, f: nat,
                                          i: Inode, rest: Rest)
    requires forall x :: x in files ==> x in offsets && Complete(r.metadata, x)
    requires f in files && InRange(i) && rest.Valid() && At(data, offsets[f], EncodeInode(i, rest))
    ensures var d := Inference.DiffedFiles(r, files, offsets, data);
            && f in d.latest && d.latest[f] == i && Complete(d.metadata, f)
            && d.metadata[(f, Size)] == i.size && d.metadata[(f, Mode)] == i.mode && d.metadata[(f, LinkCount)] == i.links
            && d.metadata[(f, Uid)] == i.uid && d.metadata[(f, Gid)] == i.gid && d.metadata[(f, Atime)] == i.atime
            && d.metadata[(f, Mtime)] == i.mtime && d.metadata[(f, Ctime)] == i.ctime
            && (d.metadata[(f, IsDir)] == 1 <==> i.mode / 0x4000 % 2 == 1) && d.metadata[(f, IsDir)] < 2
  {
    hide Inference.DiffedFiles, Inference.InodeAt, Inference.BlocksOf, EncodeInode;
    InodeReadsBack(data, offsets[f], i, rest);
    Inference.DiffedFilesAre(r, files, offsets, data, f, Size);
    forall name: FieldName
      ensures var d := Inference.DiffedFiles(r, files, offsets, data);
              && f in d.latest && d.latest[f] == i && (f, name) in d.metadata && d.metadata[(f, name)] == i.Field(name)
    {
      Inference.DiffedFilesAre(r, files, offsets, data, f, name);
    }
  }

  /** The engine follows extents for the types of a mode's upper four bits listed here: directories and
      regular files, but sockets (12) too. */
  lemma HasExtentsIff(mode: nat)
    requires mode < TWO16
    ensures Inference.HasExtents(mode) <==> mode / 0x1000 in {4, 5, 8, 9, 12, 13}
  {
  }

  // ---------------------------------------------------------------- extent nodes

  /** struct ext4_extent_header */
  function HeaderSlots(entries: nat, max: nat, depth: nat, generation: nat): seq<Slot> {
    [Num(0xF30A, 2), Num(entries, 2), Num(max, 2), Num(depth, 2), Num(generation, 4)]
  }

  /** struct ext4_extent */
  function ExtentSlots(e: Extent): seq<Slot> {
    [Num(e.block, 4), Num(e.len, 2), Num(e.start / TWO32, 2), Num(e.start % TWO32, 4)]
  }

  /** struct ext4_extent_idx */
  function IndexSlots(block: nat, leaf: nat, unused: nat): seq<Slot> {
    [Num(block, 4), Num(leaf % TWO32, 4), Num(leaf / TWO32, 2), Num(unused, 2)]
  }

  predicate ExtentInRange(e: Extent) {
    e.block < TWO32 && e.len < TWO16 && e.start / TWO32 < TWO16
  }

  /** A buffer starts with a node that has this header. */
  ghost predicate HasHeader(b: seq<Byte>, entries: nat, depth: nat) {
    exists max: nat, generation: nat :: At(b, 0, Pack(HeaderSlots(entries, max, depth, generation)))
  }

  lemma {:induction false} HeaderReadsBack(b: seq<Byte>, entries: nat, depth: nat)
    requires entries < TWO16 && depth < TWO16 && HasHeader(b, entries, depth)
    ensures Inference.Entries(b) == entries && Inference.Depth(b) == depth
  {
    var max: nat, generation: nat :| At(b, 0, Pack(HeaderSlots(entries, max, depth, generation)));
    var s := HeaderSlots(entries, max, depth, generation);
    assert Start(s, 0) == 0;
    hide Start, ToLe;
    Next(s, 0);
    Next(s, 1);
    Next(s, 2);
    Radixes();
    hide Pack, Inference.Read, Radix, Slot.Image;
    ReadAt(b, 0, s, 0, 0);
    ReadAt(b, 0, s, 1, 2);
    ReadAt(b, 0, s, 3, 6);
  }

  /** A node without the magic number has no entries and no depth, whatever it holds. */
  lemma {:induction false} NoMagicNoEntries(b: seq<Byte>)
    requires |b| >= 2 && b[0..2] != [0x0A, 0xF3]
    ensures Inference.Entries(b) == 0 && Inference.Depth(b) == 0 && Inference.Leaf(b) == []
  {
    ToLeLe(b[0..2]);
    assert ToLe(0xF30A, 2) == [0x0A, 0xF3];
  }

  /** Entry `k` of a leaf: block and length as encoded, the start as the format has it, which is what the
      source computes below block 2^32. */
  lemma {:induction false} ExtentReadsBack(b: seq<Byte>, k: nat, e: Extent)
    requires ExtentInRange(e) && At(b, 12 + 12 * k, Pack(ExtentSlots(e)))
    ensures Inference.ExtentAt(b, k).block == e.block && Inference.ExtentAt(b, k).len == e.len
    ensures Inference.FormatStart(b, k) == e.start
    ensures Inference.ExtentAt(b, k) == e <==> e.start < TWO32
  {
    hide Inference.Read, Pack;
    ExtentFields(b, 12 + 12 * k, e);
    Halves(e.start);
  }

  lemma {:induction false} ExtentFields(b: seq<Byte>, at: nat, e: Extent)
    requires ExtentInRange(e) && At(b, at, Pack(ExtentSlots(e)))
    ensures Inference.Read(b, at, 4) == e.block && Inference.Read(b, at + 4, 2) == e.len
    ensures Inference.Read(b, at + 6, 2) == e.start / TWO32 && Inference.Read(b, at + 8, 4) == e.start % TWO32
  {
    var s := ExtentSlots(e);
    assert Start(s, 0) == 0;
    hide Start, ToLe, Pack, Inference.Read, Radix, Slot.Image;
    Next(s, 0);
    Next(s, 1);
    Next(s, 2);
    Radixes();
    ReadAt(b, at, s, 0, 0);
    ReadAt(b, at, s, 1, 4);
    ReadAt(b, at, s, 2, 6);
    ReadAt(b, at, s, 3, 8);
  }

  lemma Halves(x: nat)
    ensures x / TWO32 * TWO32 + x % TWO32 == x
    ensures x / TWO32 * Inference.TWO48 + x % TWO32 == x <==> x < TWO32
  {
  }

  lemma {:induction false} IndexReadsBack(b: seq<Byte>, k: nat, block: nat, leaf: nat, unused: nat)
    requires leaf / TWO32 < TWO16 && At(b, 12 + 12 * k, Pack(IndexSlots(block, leaf, unused)))
    ensures Inference.FormatLeaf(b, k) == leaf
    ensures Inference.LeafBlockAt(b, k) == leaf <==> leaf < TWO32
  {
    hide Inference.Read, Pack;
    IndexFields(b, 12 + 12 * k, block, leaf, unused);
    Halves(leaf);
  }

  lemma {:induction false} IndexFields(b: seq<Byte>, at: nat, block: nat, leaf: nat, unused: nat)
    requires leaf / TWO32 < TWO16 && At(b, at, Pack(IndexSlots(block, leaf, unused)))
    ensures Inference.Read(b, at + 4, 4) == leaf % TWO32 && Inference.Read(b, at + 8, 2) == leaf / TWO32
  {
    var s := IndexSlots(block, leaf, unused);
    assert Start(s, 0) == 0;
    hide Start, ToLe, Pack, Inference.Read, Radix, Slot.Image;
    Next(s, 0);
    Next(s, 1);
    Radixes();
    ReadAt(b, at, s, 1, 4);
    ReadAt(b, at, s, 2, 8);
  }

  /** A leaf node of these extents at the start of a buffer, block area of an inode or block of its own. */
  ghost predicate HoldsLeaf(b: seq<Byte>, es: seq<Extent>) {
    HasHeader(b, |es|, 0) && forall k :: 0 <= k < |es| ==> At(b, 12 + 12 * k, Pack(ExtentSlots(es[k])))
  }

  /** A leaf is read back, extent by extent, if and only if all its blocks are below 2^32. */
  lemma {:induction false} LeafReadsBack(b: seq<Byte>, es: seq<Extent>)
    requires |es| < TWO16 && HoldsLeaf(b, es) && forall k :: 0 <= k < |es| ==> ExtentInRange(es[k])
    ensures Inference.Depth(b) == 0 && |Inference.Leaf(b)| == |es|
    ensures Inference.Leaf(b) == es <==> forall k :: 0 <= k < |es| ==> es[k].start < TWO32
  {
    HeaderReadsBack(b, |es|, 0);
    hide HasHeader, Pack, Inference.ExtentAt, Inference.Entries, Inference.Depth, ExtentInRange;
    forall k | 0 <= k < |es| ensures Inference.Leaf(b)[k] == es[k] <==> es[k].start < TWO32 {
      ExtentReadsBack(b, k, es[k]);
    }
  }

  // ---------------------------------------------------------------- group descriptors

  /** struct ext4_block_group_descriptor, without the 64-bit option. */
  function DescriptorSlots(blockBitmap: nat, inodeBitmap: nat, inodeTable: nat, tail: seq<Byte>): seq<Slot> {
    [Num(blockBitmap, 4), Num(inodeBitmap, 4), Num(inodeTable, 4), Raw(tail)]
  }

  /** A descriptor that puts its group's inode table at this block stands here. */
  ghost predicate DescriptorAt(b: seq<Byte>, at: nat, inodeTable: nat) {
    exists blockBitmap: nat, inodeBitmap: nat, tail ::
      |tail| == 20 && At(b, at, Pack(DescriptorSlots(blockBitmap, inodeBitmap, inodeTable, tail)))
  }

  lemma {:induction false} DescriptorStarts(s: seq<Slot>, blockBitmap: nat, inodeBitmap: nat, inodeTable: nat, tail: seq<Byte>)
    requires s == DescriptorSlots(blockBitmap, inodeBitmap, inodeTable, tail) && |tail| == 20
    ensures Start(s, 2) == 8 && |Pack(s)| == Ext4Inodes.DESCRIPTOR
  {
    PackLength(s);
    assert Start(s, 0) == 0;
    hide Start, Pack, ToLe;
    Next(s, 0);
    Next(s, 1);
    Next(s, 2);
    Next(s, 3);
  }

  lemma {:induction false} DescriptorReadsBack(sb: Ext4Inodes.Super, bgds: seq<Byte>, i: nat, inodeTable: nat)
    requires inodeTable < TWO32 && DescriptorAt(bgds, Ext4Inodes.DESCRIPTOR * i, inodeTable)
    ensures Ext4Inodes.DESCRIPTOR * (i + 1) <= |bgds|
    ensures Ext4Inodes.TableStart(sb, bgds, i) == inodeTable * sb.blockSize + sb.offset
  {
    var at := Ext4Inodes.DESCRIPTOR * i;
    var blockBitmap: nat, inodeBitmap: nat, tail :|
      |tail| == 20 && At(bgds, at, Pack(DescriptorSlots(blockBitmap, inodeBitmap, inodeTable, tail)));
    var s := DescriptorSlots(blockBitmap, inodeBitmap, inodeTable, tail);
    DescriptorStarts(s, blockBitmap, inodeBitmap, inodeTable, tail);
    Radixes();
    hide Start, Pack, Le, ToLe, Radix;
    NumberAt(bgds, at, s, 2);
  }

  /** The image of a file system: the descriptors stand in the block behind the superblock's, and each
      names the block of its group's inode table. */
  ghost predicate Formatted(disk: seq<Byte>, sb: Ext4Inodes.Super, tables: seq<nat>)
    requires sb.Valid()
  {
    && |tables| == sb.Groups() && (forall g :: 0 <= g < |tables| ==> tables[g] < TWO32)
    && forall g :: 0 <= g < |tables| ==>
         DescriptorAt(disk, sb.offset + (sb.firstDataBlock + 1) * sb.blockSize + Ext4Inodes.DESCRIPTOR * g, tables[g])
  }

  /** Byte address of inode `n` in such an image; inodes count from 1. */
  function InodeByte(sb: Ext4Inodes.Super, tables: seq<nat>, n: nat): nat
    requires sb.Valid() && n > 0 && (n - 1) / sb.inodesPerGroup < |tables|
  {
    tables[(n - 1) / sb.inodesPerGroup] * sb.blockSize + sb.offset + (n - 1) % sb.inodesPerGroup * sb.inodeSize
  }

  lemma {:induction false} DescriptorInTable(disk: seq<Byte>, from: nat, size: nat, i: nat, inodeTable: nat)
    requires from + size <= |disk| && Ext4Inodes.DESCRIPTOR * (i + 1) <= size
    requires DescriptorAt(disk, from + Ext4Inodes.DESCRIPTOR * i, inodeTable)
    ensures DescriptorAt(disk[from..from + size], Ext4Inodes.DESCRIPTOR * i, inodeTable)
  {
    var at := Ext4Inodes.DESCRIPTOR * i;
    var blockBitmap: nat, inodeBitmap: nat, tail :|
      |tail| == 20 && At(disk, from + at, Pack(DescriptorSlots(blockBitmap, inodeBitmap, inodeTable, tail)));
    var s := DescriptorSlots(blockBitmap, inodeBitmap, inodeTable, tail);
    DescriptorStarts(s, blockBitmap, inodeBitmap, inodeTable, tail);
    hide Pack, Start, At;
    AtSlice(disk, from, size, at, Pack(s));
  }

  /** The crawler reads every inode of a formatted image whose tables lie inside the partition: what
      it returns decodes to the inode encoded there, and the sector and offset it records are the
      inode's address. */
  method CrawlEncoded(disk: seq<Byte>, sb: Ext4Inodes.Super, n: nat, ghost tables: seq<nat>, ghost i: Inode, ghost r: Rest)
    returns (inode: seq<Byte>, sector: nat, offset: nat)
    requires sb.Valid() && Formatted(disk, sb, tables) && 0 < n <= |tables| * sb.inodesPerGroup && sb.inodeSize >= Ext4Inodes.INODE
    requires sb.offset + (sb.firstDataBlock + 1) * sb.blockSize + Ext4Inodes.DESCRIPTOR * |tables| <= |disk|
    requires sb.offset + sb.blocks * sb.blockSize <= |disk|
    requires forall g :: 0 <= g < |tables| ==>
               tables[g] * sb.blockSize + sb.inodesPerGroup * sb.inodeSize <= sb.blocks * sb.blockSize
    requires (n - 1) / sb.inodesPerGroup < |tables| && InRange(i) && r.Valid()
    requires At(disk, InodeByte(sb, tables, n), EncodeInode(i, r))
    ensures Inference.InodeAt(inode, 0) == i
    ensures sector * SECTOR_SIZE + offset == InodeByte(sb, tables, n)
  {
    ghost var from, size := sb.offset + (sb.firstDataBlock + 1) * sb.blockSize, Ext4Inodes.DESCRIPTOR * |tables|;
    assert from == sb.DescriptorsAt();
    ghost var bgds := Ext4Inodes.Descriptors(disk, sb);
    forall g | 0 <= g < |tables|
      ensures Ext4Inodes.DESCRIPTOR * (g + 1) <= |bgds|
      ensures Ext4Inodes.TableStart(sb, bgds, g) == tables[g] * sb.blockSize + sb.offset
    {
      DescriptorInTable(disk, from, size, g, tables[g]);
      DescriptorReadsBack(sb, bgds, g, tables[g]);
    }
    inode, sector, offset := Ext4Inodes.CrawlInode(disk, sb, n);
    ghost var at := InodeByte(sb, tables, n);
    assert at == Ext4Inodes.InodeAddress(sb, bgds, n);
    InodeStarts(i, r);
    assert At(inode, 0, EncodeInode(i, r));
    InodeReadsBack(inode, 0, i, r);
  }
}
