/**
 The FUSE read path (gray-fs.c): a range of the file's sector list is fetched and the blocks are
 copied from the disk, holes as zeros, the first one from inside the block.
 */
module GrayFs {
  import opened Bytes

  const BLOCK: nat := 4096
  const EINVAL: int := -22

  /** Sectors in the list are holes (negative) or name a whole block on the disk. */
  ghost predicate OnDisk(disk: seq<Byte>, list: seq<int>) {
    forall b :: 0 <= b < |list| && list[b] >= 0 ==> list[b] * SECTOR_SIZE + BLOCK <= |disk|
  }

  function BlockOf(p: nat): nat { p / BLOCK }
  function Within(p: nat): nat { p % BLOCK }
  function BlocksFor(n: nat): nat { (n + BLOCK - 1) / BLOCK }

  lemma Split(p: nat)
    ensures p == BLOCK * BlockOf(p) + Within(p) && Within(p) < BLOCK
  {
  }

  /** Byte `k` of the block a list entry names. */
  function BlockByte(disk: seq<Byte>, sector: int, k: nat): Byte
    requires k < BLOCK && (sector >= 0 ==> sector * SECTOR_SIZE + BLOCK <= |disk|)
  {
    if sector < 0 then 0 else disk[sector * SECTOR_SIZE + k]
  }

  /** Byte `p` of the file the list describes. */
  function FileByte(disk: seq<Byte>, list: seq<int>, p: nat): Byte
    requires p < BLOCK * |list| && OnDisk(disk, list)
  {
    BlockByte(disk, list[BlockOf(p)], Within(p))
  }

  /** The file: its list, up to its size. */
  function FileBytes(disk: seq<Byte>, list: seq<int>, size: nat): (r: seq<Byte>)
    requires OnDisk(disk, list) && size <= BLOCK * |list|
    ensures |r| == size
  {
    seq(size, p requires 0 <= p < size => FileByte(disk, list, p))
  }

  /** LRANGE: both ends included, cut to the list. */
  function Range(list: seq<int>, start: nat, end: nat): seq<int> {
    if start >= |list| || end < start then [] else list[start..Min(end + 1, |list|)]
  }

  /** Bytes a read gets: what it asks for, cut to the file and to the blocks listed. */
  function Available(list: seq<int>, fileSize: nat, size: nat, offset: nat): nat
    requires offset <= fileSize
  {
    Min(Min(size, fileSize - offset), Max(0, BLOCK * |list| - offset))
  }

  /** The first `n` bytes of a buffer are the file's from `offset` on; the rest is as it was. */
  ghost predicate Filled(was: seq<Byte>, now: seq<Byte>, disk: seq<Byte>, list: seq<int>, offset: nat, n: nat)
    requires OnDisk(disk, list)
  {
    && n <= |now| == |was| && (n > 0 ==> offset + n <= BLOCK * |list|)
    && (forall t :: 0 <= t < n ==> now[t] == FileByte(disk, list, offset + t))
    && (forall t :: n <= t < |was| ==> now[t] == was[t])
  }

  /** One pass of the loop: zeros for a hole, otherwise the block's bytes from `inBlock` on. */
  method CopyBlock(disk: seq<Byte>, sector: int, inBlock: nat, buf: array<Byte>, position: nat, n: nat,
                   ghost list: seq<int>, ghost b: nat, ghost offset: nat, ghost was: seq<Byte>)
    requires OnDisk(disk, list) && b < |list| && sector == list[b] && inBlock + n <= BLOCK && position + n <= buf.Length
    requires offset + position == BLOCK * b + inBlock && Filled(was, buf[..], disk, list, offset, position)
    modifies buf
    ensures Filled(was, buf[..], disk, list, offset, position + n)
  {
    forall t | position <= t < position + n {
      buf[t] := if sector < 0 then 0 else disk[sector * SECTOR_SIZE + inBlock + t - position];
    }
    forall t | 0 <= t < position + n ensures buf[t] == FileByte(disk, list, offset + t) {
      if t < position {
        assert buf[t] == old(buf[..])[t];
      } else {
        BlockBytes(disk, list, b, inBlock, t - position);
      }
    }
  }

  /** The bytes copied from block `b` are the file's from byte `p` on. */
  lemma BlockBytes(disk: seq<Byte>, list: seq<int>, b: nat, inBlock: nat, k: nat)
    requires OnDisk(disk, list) && b < |list| && inBlock + k < BLOCK
    ensures FileByte(disk, list, BLOCK * b + inBlock + k) == BlockByte(disk, list[b], inBlock + k)
  {
  }

  /** The inclusive range has a block to spare, so an unaligned request is covered. */
  lemma RangeCovers(list: seq<int>, fileSize: nat, size: nat, offset: nat)
    requires offset <= fileSize
    ensures var want, start := Min(size, fileSize - offset), BlockOf(offset);
            var range := Range(list, start, start + BlocksFor(want));
            Available(list, fileSize, size, offset) == Min(want, Max(0, BLOCK * (start + |range|) - offset))
  {
  }

  lemma {:induction false} SliceOfFile(was: seq<Byte>, now: seq<Byte>, disk: seq<Byte>, list: seq<int>, fileSize: nat, offset: nat, n: nat)
    requires OnDisk(disk, list) && offset + n <= fileSize <= BLOCK * |list| && Filled(was, now, disk, list, offset, n)
    ensures n <= |now| && now[..n] == FileBytes(disk, list, fileSize)[offset..offset + n]
  {
    hide FileByte;
  }

  lemma FilledNone(s: seq<Byte>, disk: seq<Byte>, list: seq<int>, offset: nat)
    requires OnDisk(disk, list)
    ensures Filled(s, s, disk, list, offset, 0)
  {
  }

  lemma RangeAt(list: seq<int>, start: nat, end: nat)
    ensures var range := Range(list, start, end);
            forall i :: 0 <= i < |range| ==> start + i < |list| && range[i] == list[start + i]
  {
  }

  /** The copying loop of gammarayfs_read over the list range fetched from block `start` on. */
  method CopyRange(disk: seq<Byte>, list: seq<int>, start: nat, range: seq<int>, buf: array<Byte>, offset: nat, want: nat)
    returns (position: nat)
    requires OnDisk(disk, list) && want <= buf.Length && BLOCK * start <= offset < BLOCK * (start + 1)
    requires forall i :: 0 <= i < |range| ==> start + i < |list| && range[i] == list[start + i]
    modifies buf
    ensures position == if range == [] then 0 else Min(want, BLOCK * (start + |range|) - offset)
    ensures Filled(old(buf[..]), buf[..], disk, list, offset, position)
  {
    hide Filled, OnDisk;
    FilledNone(buf[..], disk, list, offset);
    var inBlock := offset - BLOCK * start;
    position := 0;
    for i := 0 to |range|
      invariant inBlock == (if i == 0 then offset - BLOCK * start else 0)
      invariant position < want ==> offset + position == BLOCK * (start + i) + inBlock
      invariant position == if i == 0 then 0 else Min(want, BLOCK * (start + i) - offset)
      invariant Filled(old(buf[..]), buf[..], disk, list, offset, position)
    {
      var toRead := BLOCK - inBlock;
      if toRead > want - position {
        toRead := want - position;
      }
      if toRead <= 0 {
        break;
      }
      CopyBlock(disk, range[i], inBlock, buf, position, toRead, list, start + i, offset, old(buf[..]));
      inBlock := 0;
      position := position + toRead;
    }
  }

  /** gammarayfs_read. A file whose every block is listed reads as its bytes. */
  method Read(disk: seq<Byte>, list: seq<int>, fileSize: nat, buf: array<Byte>, size: nat, offset: nat) returns (r: int)
    requires OnDisk(disk, list) && size <= buf.Length
    modifies buf
    ensures offset > fileSize ==> r == EINVAL && buf[..] == old(buf[..])
    ensures offset <= fileSize ==>
              r == Available(list, fileSize, size, offset) && Filled(old(buf[..]), buf[..], disk, list, offset, r)
    ensures offset <= fileSize <= BLOCK * |list| ==>
              && r == Min(size, fileSize - offset)
              && buf[..r] == FileBytes(disk, list, fileSize)[offset..offset + r]
  {
    if offset > fileSize {
      return EINVAL;
    }
    hide FileByte, FileBytes, Filled, OnDisk, Range, BlockOf, Within, BlocksFor;
    var want := if offset + size > fileSize then fileSize - offset else size;
    var start := BlockOf(offset);
    var range := Range(list, start, start + BlocksFor(want));
    RangeCovers(list, fileSize, size, offset);
    RangeAt(list, start, start + BlocksFor(want));
    Split(offset);
    r := CopyRange(disk, list, start, range, buf, offset, want);
    if fileSize <= BLOCK * |list| {
      SliceOfFile(old(buf[..]), buf[..], disk, list, fileSize, offset, r);
    }
  }
}
