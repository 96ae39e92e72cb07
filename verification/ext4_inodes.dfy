/**
 The crawler's caches of group descriptors and inode tables (ext4.c), and the address of an
 inode as the crawler records it and as the inferencer computes it again (deep_inspection.c).
 */
module Ext4Inodes {
  import opened Arithmetic
  import opened Bytes
  import opened Ext4BlockMap

  const DESCRIPTOR: nat := 32
  const INODE: nat := 156

  datatype Super = Super(blockSize: nat, firstDataBlock: nat, blocks: nat, blocksPerGroup: nat, inodesPerGroup: nat,
                         inodeSize: nat, offset: nat)
  {
    ghost predicate Valid() {
      blockSize >= SECTOR_SIZE && blockSize % SECTOR_SIZE == 0 && blocksPerGroup > 0 && inodesPerGroup > 0
    }

    function Groups(): nat
      requires Valid()
    {
      (blocks + blocksPerGroup - 1) / blocksPerGroup
    }

    function TableSize(): nat { Times(inodesPerGroup, inodeSize) }
    function DescriptorsAt(): nat { offset + Times(firstDataBlock + 1, blockSize) }
    function End(): nat { offset + Times(blocks, blockSize) }

    /** Group and slot of inode `n`; inodes count from 1. */
    function Group(n: nat): nat
      requires Valid() && n > 0
    {
      Quot(n - 1, inodesPerGroup)
    }

    function InTable(n: nat): nat
      requires Valid() && n > 0
    {
      Times(Rem(n - 1, inodesPerGroup), inodeSize)
    }
  }

  /** As many groups as it takes to hold the blocks, and no more. */
  lemma {:induction false} GroupsHoldBlocks(sb: Super)
    requires sb.Valid()
    ensures sb.Groups() * sb.blocksPerGroup >= sb.blocks
    ensures sb.blocks > 0 ==> sb.Groups() > 0 && (sb.Groups() - 1) * sb.blocksPerGroup < sb.blocks
  {
    var n, x := sb.blocksPerGroup, sb.blocks + sb.blocksPerGroup - 1;
    assert x == x / n * n + x % n && x % n < n;
    assert (x / n - 1) * n == x / n * n - n;
  }

  /** fread into the middle of a buffer. */
  method ReadInto(cache: array<Byte>, at: nat, disk: seq<Byte>, start: nat, size: nat)
    requires at + size <= cache.Length && start + size <= |disk|
    modifies cache
    ensures cache[..][..at] == old(cache[..])[..at]
    ensures cache[..][at..at + size] == disk[start..start + size]
    ensures cache[..][at + size..] == old(cache[..])[at + size..]
  {
    forall k | 0 <= k < size {
      cache[at + k] := disk[start + k];
    }
  }

  /** ext4_cache_bgds: the descriptors, one read per group. */
  method CacheDescriptors(disk: seq<Byte>, sb: Super) returns (cache: array<Byte>)
    requires sb.Valid() && sb.DescriptorsAt() + DESCRIPTOR * sb.Groups() <= |disk|
    ensures fresh(cache)
    ensures cache[..] == disk[sb.DescriptorsAt()..sb.DescriptorsAt() + DESCRIPTOR * sb.Groups()]
  {
    hide Times;
    var groups, from := sb.Groups(), sb.DescriptorsAt();
    cache := new Byte[DESCRIPTOR * groups];
    var at := 0;
    for i := 0 to groups
      invariant at == DESCRIPTOR * i
      invariant cache[..at] == disk[from..from + at]
    {
      ReadInto(cache, at, disk, from + DESCRIPTOR * i, DESCRIPTOR);
      assert cache[..at + DESCRIPTOR] == cache[..][..at] + cache[..][at..at + DESCRIPTOR];
      at := at + DESCRIPTOR;
    }
  }

  /** First byte of group `i`'s inode table, from its descriptor. */
  function TableStart(sb: Super, bgds: seq<Byte>, i: nat): nat
    requires DESCRIPTOR * (i + 1) <= |bgds|
  {
    Times(Le(bgds[DESCRIPTOR * i + 8..DESCRIPTOR * i + 12]), sb.blockSize) + sb.offset
  }

  /** None of the first `n` tables reaches past the end of the partition. */
  ghost predicate Inside(sb: Super, bgds: seq<Byte>, n: nat)
    requires DESCRIPTOR * n <= |bgds|
  {
    forall i :: 0 <= i < n ==> TableStart(sb, bgds, i) + sb.TableSize() <= sb.End()
  }

  /** The part of the cache for group `i` is the table on disk. */
  ghost predicate Cached(disk: seq<Byte>, sb: Super, bgds: seq<Byte>, cache: seq<Byte>, i: nat)
    requires DESCRIPTOR * (i + 1) <= |bgds|
  {
    var at, start := Times(i, sb.TableSize()), TableStart(sb, bgds, i);
    && at + sb.TableSize() <= |cache| && start + sb.TableSize() <= |disk|
    && cache[at..at + sb.TableSize()] == disk[start..start + sb.TableSize()]
  }

  /** Writing group `i`'s part leaves the earlier parts alone. */
  lemma {:induction false} CachedStays(disk: seq<Byte>, sb: Super, bgds: seq<Byte>, was: seq<Byte>, cache: seq<Byte>, i: nat, j: nat)
    requires j < i && DESCRIPTOR * (i + 1) <= |bgds| && Cached(disk, sb, bgds, was, j)
    requires Times(i, sb.TableSize()) <= |cache| == |was|
    requires was[..Times(i, sb.TableSize())] == cache[..Times(i, sb.TableSize())]
    ensures Cached(disk, sb, bgds, cache, j)
  {
    var size := sb.TableSize();
    TimesMono(j + 1, i, size);
    TimesSum(j, 1, size);
    TimesOne(size);
    hide Times;
    var at := Times(j, size);
    assert cache[at..at + size] == cache[..Times(i, size)][at..at + size];
    assert was[at..at + size] == was[..Times(i, size)][at..at + size];
  }

  /** ext4_cache_inodes: the tables, one after the other. A table that would reach past the
      partition is cut, and the cut size is kept for the groups after it; up to there the cache
      holds what is on disk. */
  method CacheInodes(disk: seq<Byte>, sb: Super, bgds: seq<Byte>) returns (ok: bool, cache: array<Byte>)
    requires sb.Valid() && DESCRIPTOR * sb.Groups() <= |bgds| && sb.End() <= |disk|
    ensures fresh(cache) && cache.Length == Times(sb.Groups(), sb.TableSize())
    ensures Inside(sb, bgds, sb.Groups()) ==> ok
    ensures ok ==> forall i :: 0 <= i < sb.Groups() && Inside(sb, bgds, i + 1) ==> Cached(disk, sb, bgds, cache[..], i)
  {
    hide Times, Le;
    var groups, tableSize := sb.Groups(), sb.TableSize();
    var size: nat := tableSize;
    cache := new Byte[Times(groups, tableSize)];
    var at := 0;
    TimesZero(tableSize);
    for i := 0 to groups
      invariant at == Times(i, tableSize) && size <= tableSize
      invariant Inside(sb, bgds, i) ==> size == tableSize
      invariant forall j :: 0 <= j < i && Inside(sb, bgds, j + 1) ==> Cached(disk, sb, bgds, cache[..], j)
    {
      TimesNext(i, groups, tableSize);
      var start := TableStart(sb, bgds, i);
      if start + size >= sb.End() {
        var excess := start + size - sb.End();
        if excess > size {
          return false, cache;
        }
        size := size - excess;
      }
      ghost var was := cache[..];
      ReadInto(cache, at, disk, start, size);
      assert was[..at] == cache[..][..at];
      forall j | 0 <= j < i && Inside(sb, bgds, j + 1) ensures Cached(disk, sb, bgds, cache[..], j) {
        CachedStays(disk, sb, bgds, was, cache[..], i, j);
      }
      if Inside(sb, bgds, i + 1) {
        assert Inside(sb, bgds, i);
        assert size == tableSize;
      }
      at := at + tableSize;
    }
    ok := true;
  }

  // ------------------------------------------------------------------ addresses

  /** Where inode `n` is on disk. */
  function InodeAddress(sb: Super, bgds: seq<Byte>, n: nat): nat
    requires sb.Valid() && n > 0 && DESCRIPTOR * (sb.Group(n) + 1) <= |bgds|
  {
    TableStart(sb, bgds, sb.Group(n)) + sb.InTable(n)
  }

  lemma {:induction false} SlotFits(sb: Super, n: nat)
    requires sb.Valid() && n > 0
    ensures sb.InTable(n) + sb.inodeSize <= sb.TableSize()
  {
    QuotRem(n - 1, sb.inodesPerGroup);
    TimesNext(Rem(n - 1, sb.inodesPerGroup), sb.inodesPerGroup, sb.inodeSize);
  }

  /** ext4_read_inode_serialized: the cached inode is the one on disk, and the recorded block
      sector and offset name its address. */
  method ReadInode(ghost disk: seq<Byte>, sb: Super, bgds: seq<Byte>, icache: seq<Byte>, n: nat)
    returns (inode: seq<Byte>, sector: nat, offset: nat)
    requires sb.Valid() && n > 0 && DESCRIPTOR * (sb.Group(n) + 1) <= |bgds| && sb.inodeSize >= INODE
    requires Cached(disk, sb, bgds, icache, sb.Group(n))
    ensures var address := InodeAddress(sb, bgds, n);
            && address + INODE <= |disk| && inode == disk[address..address + INODE]
            && sector * SECTOR_SIZE + offset == address
            && offset < sb.blockSize && Rem(sector * SECTOR_SIZE, sb.blockSize) == 0
  {
    CachedInode(disk, sb, bgds, icache, n);
    hide Times, Quot, Rem, Le, BlockSector, Cached;
    var slot := Times(sb.Group(n), sb.TableSize()) + sb.InTable(n);
    inode := icache[slot..slot + INODE];
    var address := TableStart(sb, bgds, sb.Group(n)) + sb.InTable(n);
    sector := BlockSector(address, sb.blockSize);
    offset := Rem(address, sb.blockSize);
    BlockAddress(address, sb.blockSize);
  }

  lemma {:induction false} CachedInode(disk: seq<Byte>, sb: Super, bgds: seq<Byte>, icache: seq<Byte>, n: nat)
    requires sb.Valid() && n > 0 && DESCRIPTOR * (sb.Group(n) + 1) <= |bgds| && sb.inodeSize >= INODE
    requires Cached(disk, sb, bgds, icache, sb.Group(n))
    ensures var slot, address := Times(sb.Group(n), sb.TableSize()) + sb.InTable(n), InodeAddress(sb, bgds, n);
            && slot + INODE <= |icache| && address + INODE <= |disk|
            && icache[slot..slot + INODE] == disk[address..address + INODE]
  {
    SlotFits(sb, n);
    hide Times, Quot, Rem, Le, Super.Valid;
    var size, k := sb.TableSize(), sb.InTable(n);
    var at, start := Times(sb.Group(n), size), TableStart(sb, bgds, sb.Group(n));
    SliceOfSlice(icache, at, size, k, INODE);
    SliceOfSlice(disk, start, size, k, INODE);
  }

  /** The descriptors on disk. */
  function Descriptors(disk: seq<Byte>, sb: Super): seq<Byte>
    requires sb.Valid() && sb.DescriptorsAt() + DESCRIPTOR * sb.Groups() <= |disk|
  {
    disk[sb.DescriptorsAt()..sb.DescriptorsAt() + DESCRIPTOR * sb.Groups()]
  }

  lemma {:induction false} GroupInRange(sb: Super, n: nat)
    requires sb.Valid() && 0 < n <= Times(sb.Groups(), sb.inodesPerGroup)
    ensures sb.Group(n) < sb.Groups()
  {
    QuotBound(n - 1, sb.inodesPerGroup, sb.Groups());
  }

  /** Both caches filled and an inode read through them: for every inode number of a file system
      whose tables stay inside the partition, the result is the inode on disk and its address. */
  method CrawlInode(disk: seq<Byte>, sb: Super, n: nat) returns (inode: seq<Byte>, sector: nat, offset: nat)
    requires sb.Valid() && sb.DescriptorsAt() + DESCRIPTOR * sb.Groups() <= |disk| && sb.End() <= |disk|
    requires 0 < n <= Times(sb.Groups(), sb.inodesPerGroup) && sb.inodeSize >= INODE
    requires Inside(sb, Descriptors(disk, sb), sb.Groups())
    ensures sb.Group(n) < sb.Groups()
    ensures var address := InodeAddress(sb, Descriptors(disk, sb), n);
            && address + INODE <= |disk| && inode == disk[address..address + INODE]
            && sector * SECTOR_SIZE + offset == address
  {
    GroupInRange(sb, n);
    hide Times, Quot, Rem, Le, InodeAddress, TableStart, Super.TableSize, Super.End, Super.Groups, Super.InTable;
    var bcache := CacheDescriptors(disk, sb);
    var ok, icache := CacheInodes(disk, sb, bcache[..]);
    assert Inside(sb, bcache[..], sb.Group(n) + 1);
    inode, sector, offset := ReadInode(disk, sb, bcache[..], icache[..], n);
  }

  /** The sector of an address, rounded down to a whole block. */
  function BlockSector(address: nat, blockSize: nat): nat
    requires blockSize >= SECTOR_SIZE
  {
    var perBlock := blockSize / SECTOR_SIZE;
    address / SECTOR_SIZE / perBlock * perBlock
  }

  /** Rounding the sector down to a block and taking the offset in the block lose nothing,
      wherever the partition starts. */
  lemma {:induction false} BlockAddress(address: nat, blockSize: nat)
    requires blockSize >= SECTOR_SIZE && blockSize % SECTOR_SIZE == 0
    ensures BlockSector(address, blockSize) * SECTOR_SIZE + Rem(address, blockSize) == address
    ensures Rem(BlockSector(address, blockSize) * SECTOR_SIZE, blockSize) == 0 && Rem(address, blockSize) < blockSize
  {
    var perBlock := blockSize / SECTOR_SIZE;
    assert blockSize == perBlock * SECTOR_SIZE;
    QuotQuot(address, SECTOR_SIZE, perBlock);
    QuotRem(address, blockSize);
    var q := address / blockSize;
    assert q * perBlock * SECTOR_SIZE == q * blockSize;
    QuotUnique(q, 0, blockSize);
  }

  /** inode_table_sector_start, as the crawler stores it. */
  function TableSector(sb: Super, bgds: seq<Byte>, i: nat): nat
    requires DESCRIPTOR * (i + 1) <= |bgds|
  {
    TableStart(sb, bgds, i) / SECTOR_SIZE
  }

  /** __inode_sector and __inode_offset */
  function InferredSector(sb: Super, tableSector: nat, n: nat): nat
    requires sb.Valid() && n > 0
  {
    (tableSector * SECTOR_SIZE + sb.InTable(n)) / SECTOR_SIZE
  }

  function InferredOffset(sb: Super, tableSector: nat, n: nat): nat
    requires sb.Valid() && n > 0
  {
    (sb.InTable(n) + tableSector * SECTOR_SIZE) % SECTOR_SIZE
  }

  /** The inferencer names the address the crawler does if and only if the partition starts on a
      sector boundary. */
  lemma {:induction false} InferredAddressIff(sb: Super, bgds: seq<Byte>, n: nat)
    requires sb.Valid() && n > 0 && DESCRIPTOR * (sb.Group(n) + 1) <= |bgds|
    ensures var t := TableSector(sb, bgds, sb.Group(n));
            (InferredSector(sb, t, n) * SECTOR_SIZE + InferredOffset(sb, t, n) == InodeAddress(sb, bgds, n))
            <==> sb.offset % SECTOR_SIZE == 0
  {
    hide Quot, Rem, Le;
    var table := Le(bgds[DESCRIPTOR * sb.Group(n) + 8..DESCRIPTOR * sb.Group(n) + 12]);
    var k := sb.blockSize / SECTOR_SIZE;
    assert Times(table, sb.blockSize) == table * k * SECTOR_SIZE by {
      assert sb.blockSize == k * SECTOR_SIZE;
      assert table * (k * SECTOR_SIZE) == table * k * SECTOR_SIZE;
    }
    StartAligned(table * k, sb.offset);
  }

  lemma StartAligned(m: nat, offset: nat)
    ensures (m * SECTOR_SIZE + offset) / SECTOR_SIZE * SECTOR_SIZE == m * SECTOR_SIZE + offset <==> offset % SECTOR_SIZE == 0
  {
  }
}
