/**
 The direct/indirect block map of ext4.c. A file block is numbered 0 and up; twelve blocks are
 named by the inode itself, then come the blocks below one, two and three levels of pointer
 blocks, each holding A = block size / 4 addresses. The two lookups pick the range, rebase the
 number and walk down, with zero meaning that the file ends.
 */
module Ext4BlockMap {
  import opened Arithmetic
  import opened Bytes

  /** Found(p): the data is file system block p. PastBuffer: an address beyond the pointer block
      is read. */
  datatype Outcome = Found(block: nat) | Finished | OutOfRange | PastBuffer

  /** The addresses in each pointer block. */
  type Pointers = nat -> seq<nat>

  lemma {:induction false} QuotSquare(x: nat, a: nat)
    requires a > 0
    ensures Square(a) > 0 && Quot(x, Square(a)) == Quot(Quot(x, a), a)
  {
    TimesMono(1, a, a);
    TimesOne(a);
    hide Times, Quot, Rem;
    var q := Quot(x, a);
    QuotRem(x, a);
    QuotRem(q, a);
    TimesSum(Times(Quot(q, a), a), Rem(q, a), a);
    TimesSquare(Quot(q, a), a);
    TimesBelow(Rem(q, a), Rem(x, a), a, a);
    QuotUnique(Quot(q, a), Times(Rem(q, a), a) + Rem(x, a), Square(a));
  }

  // ------------------------------------------------------------------ the numbering

  function Square(a: nat): nat { Times(a, a) }
  function Cube(a: nat): nat { Times(a, Square(a)) }

  const INDIRECT_LOW: nat := 12
  function DoubleLow(a: nat): nat { INDIRECT_LOW + a }
  function TripleLow(a: nat): nat { DoubleLow(a) + Square(a) }
  function Blocks(a: nat): nat { TripleLow(a) + Cube(a) }

  /** The path to a file block: a slot of the inode, then one address per level. */
  function Path(a: nat, n: nat): seq<nat>
    requires a > 0
  {
    QuotSquare(0, a);
    if n < INDIRECT_LOW then [n]
    else if n < DoubleLow(a) then [12, n - INDIRECT_LOW]
    else if n < TripleLow(a) then var r := n - DoubleLow(a); [13, Quot(r, a), Rem(r, a)]
    else var r := n - TripleLow(a); [14, Quot(r, Square(a)), Rem(Quot(r, a), a), Rem(r, a)]
  }

  predicate ValidPath(a: nat, p: seq<nat>) {
    && 1 <= |p| <= 4
    && (forall i :: 1 <= i < |p| ==> p[i] < a)
    && (|p| == 1 ==> p[0] < 12) && (|p| > 1 ==> p[0] == |p| + 10)
  }

  /** The number a path stands for: its digits in base A, after the ranges before it. */
  function Number(a: nat, p: seq<nat>): nat
    requires ValidPath(a, p)
  {
    if |p| == 1 then p[0]
    else if |p| == 2 then INDIRECT_LOW + p[1]
    else if |p| == 3 then DoubleLow(a) + Times(p[1], a) + p[2]
    else TripleLow(a) + Times(Times(p[1], a) + p[2], a) + p[3]
  }

  lemma {:induction false} PathIsValid(a: nat, n: nat)
    requires a > 0 && n < Blocks(a)
    ensures ValidPath(a, Path(a, n))
  {
    hide Times, Quot, Rem;
    if DoubleLow(a) <= n < TripleLow(a) {
      QuotBound(n - DoubleLow(a), a, a);
      QuotRem(n - DoubleLow(a), a);
    } else if n >= TripleLow(a) {
      var r := n - TripleLow(a);
      QuotSquare(r, a);
      QuotBound(r, Square(a), a);
      QuotRem(r, a);
      QuotRem(Quot(r, a), a);
    }
  }

  /** The four ranges split the file's block numbers: paths and numbers below A^3+A^2+A+12
      correspond one to one. */
  lemma {:induction false} NumberOfPath(a: nat, n: nat)
    requires a > 0 && n < Blocks(a)
    ensures ValidPath(a, Path(a, n)) && Number(a, Path(a, n)) == n
  {
    hide Times, Quot, Rem;
    PathIsValid(a, n);
    if DoubleLow(a) <= n < TripleLow(a) {
      QuotRem(n - DoubleLow(a), a);
    } else if n >= TripleLow(a) {
      var r := n - TripleLow(a);
      QuotSquare(r, a);
      QuotRem(r, a);
      QuotRem(Quot(r, a), a);
    }
  }

  lemma {:induction false} PathOfNumber(a: nat, p: seq<nat>)
    requires a > 0 && ValidPath(a, p)
    ensures Number(a, p) < Blocks(a) && Path(a, Number(a, p)) == p
  {
    hide Times, Quot, Rem;
    if |p| == 3 {
      TimesBelow(p[1], p[2], a, a);
      QuotUnique(p[1], p[2], a);
    } else if |p| == 4 {
      var q := Times(p[1], a) + p[2];
      TimesBelow(p[1], p[2], a, a);
      TimesBelow(q, p[3], a, Square(a));
      TimesSquare(a, a);
      QuotUnique(q, p[3], a);
      QuotUnique(p[1], p[2], a);
      QuotSquare(Times(q, a) + p[3], a);
    }
  }

  // ------------------------------------------------------------------ the walk

  function Follow(ptrs: Pointers, p: nat, path: seq<nat>): Outcome
    decreases |path|
  {
    if p == 0 then Finished
    else if path == [] then Found(p)
    else if path[0] < |ptrs(p)| then Follow(ptrs, ptrs(p)[path[0]], path[1..])
    else PastBuffer
  }

  /** What the block map says of file block `n`. */
  function Mapped(ptrs: Pointers, iblock: seq<nat>, a: nat, n: nat): Outcome
    requires a > 0 && |iblock| == 15
  {
    if n >= Blocks(a) then OutOfRange else
    PathIsValid(a, n);
    var p := Path(a, n); Follow(ptrs, iblock[p[0]], p[1..])
  }

  /** The lookups index the second level of the triple range by r / A, not reduced modulo A. */
  predicate Overruns(ptrs: Pointers, iblock: seq<nat>, a: nat, n: nat)
    requires a > 0 && |iblock| == 15 && (forall p :: |ptrs(p)| == a)
  {
    TripleLow(a) <= n < Blocks(a) &&
    var r := n - TripleLow(a);
    SecondLevel(a, r);
    r >= Square(a) && iblock[14] != 0 && ptrs(iblock[14])[Quot(r, Square(a))] != 0
  }

  /** Below A^2 the unreduced second-level index is the digit; from A^2 on it is past the end of
      the pointer block. */
  lemma {:induction false} SecondLevel(a: nat, r: nat)
    requires a > 0 && r < Cube(a)
    ensures Square(a) > 0 && Quot(r, Square(a)) < a
    ensures r < Square(a) ==> Rem(Quot(r, a), a) == Quot(r, a) < a
    ensures r >= Square(a) ==> Quot(r, a) >= a
    ensures Rem(r, a) < a && Rem(Quot(r, a), a) < a
  {
    hide Times, Quot, Rem;
    QuotSquare(r, a);
    QuotBound(r, Square(a), a);
    QuotRem(r, a);
    QuotRem(Quot(r, a), a);
    if r < Square(a) {
      QuotBound(r, a, a);
      TimesZero(a);
      QuotUnique(0, Quot(r, a), a);
    } else if Quot(r, a) < a {
      TimesBelow(Quot(r, a), Rem(r, a), a, a);
      assert false;
    }
  }

  lemma FollowDown(ptrs: Pointers, p: nat, path: seq<nat>, rest: seq<nat>)
    requires p != 0 && path != [] && path[0] < |ptrs(p)| && rest == path[1..]
    ensures Follow(ptrs, p, path) == Follow(ptrs, ptrs(p)[path[0]], rest)
  {
  }

  /** Walks of up to three levels, written out. */
  lemma {:induction false} Follow1(ptrs: Pointers, p: nat, i: nat)
    requires p != 0 && i < |ptrs(p)|
    ensures Follow(ptrs, p, [i]) == if ptrs(p)[i] == 0 then Finished else Found(ptrs(p)[i])
  {
    FollowDown(ptrs, p, [i], []);
  }

  lemma {:induction false} Follow2(ptrs: Pointers, p: nat, i: nat, j: nat)
    requires p != 0 && i < |ptrs(p)|
    ensures Follow(ptrs, p, [i, j]) == Follow(ptrs, ptrs(p)[i], [j])
  {
    FollowDown(ptrs, p, [i, j], [j]);
  }

  lemma {:induction false} Follow3(ptrs: Pointers, p: nat, i: nat, j: nat, k: nat)
    requires p != 0 && i < |ptrs(p)|
    ensures Follow(ptrs, p, [i, j, k]) == Follow(ptrs, ptrs(p)[i], [j, k])
  {
    FollowDown(ptrs, p, [i, j, k], [j, k]);
  }

  lemma {:induction false} MappedCases(ptrs: Pointers, iblock: seq<nat>, a: nat, n: nat)
    requires a > 0 && |iblock| == 15 && n < Blocks(a)
    ensures Square(a) > 0
    ensures n < INDIRECT_LOW ==> Mapped(ptrs, iblock, a, n) == Follow(ptrs, iblock[n], [])
    ensures INDIRECT_LOW <= n < DoubleLow(a) ==> Mapped(ptrs, iblock, a, n) == Follow(ptrs, iblock[12], [n - INDIRECT_LOW])
    ensures DoubleLow(a) <= n < TripleLow(a) ==>
              var r := n - DoubleLow(a);
              Mapped(ptrs, iblock, a, n) == Follow(ptrs, iblock[13], [Quot(r, a), Rem(r, a)]) && Quot(r, a) < a && Rem(r, a) < a
    ensures n >= TripleLow(a) ==>
              var r := n - TripleLow(a);
              Mapped(ptrs, iblock, a, n) == Follow(ptrs, iblock[14], [Quot(r, Square(a)), Rem(Quot(r, a), a), Rem(r, a)])
  {
    hide Times, Quot, Rem, Follow;
    QuotSquare(0, a);
    PathIsValid(a, n);
    var p := Path(a, n);
    if n < INDIRECT_LOW {
      assert p[1..] == [];
    } else if n < DoubleLow(a) {
      assert p[1..] == [n - INDIRECT_LOW];
    } else if n < TripleLow(a) {
      assert p[1..] == [p[1], p[2]];
    } else {
      assert p[1..] == [p[1], p[2], p[3]];
    }
  }

  lemma {:induction false} FollowInside(ptrs: Pointers, a: nat, p: nat, path: seq<nat>)
    requires (forall q :: |ptrs(q)| == a) && forall i :: 0 <= i < |path| ==> path[i] < a
    ensures Follow(ptrs, p, path) == Finished || Follow(ptrs, p, path).Found?
    decreases |path|
  {
    if p != 0 && path != [] {
      FollowInside(ptrs, a, ptrs(p)[path[0]], path[1..]);
    }
  }

  /** The lookups follow the block map if and only if they do not overrun: the map itself never
      leaves a pointer block. */
  lemma {:induction false} MappedStaysInside(ptrs: Pointers, iblock: seq<nat>, a: nat, n: nat)
    requires a > 0 && |iblock| == 15 && (forall p :: |ptrs(p)| == a)
    ensures Mapped(ptrs, iblock, a, n) != PastBuffer
  {
    if n < Blocks(a) {
      PathIsValid(a, n);
      FollowInside(ptrs, a, iblock[Path(a, n)[0]], Path(a, n)[1..]);
    }
  }

  /** With two or more addresses per block and pointer blocks full of the same address, the block A^2
      into the triple range is mapped, and the lookups overrun on the way to it. */
  lemma {:induction false} OverrunExample(a: nat, iblock: seq<nat>)
    requires a >= 2 && |iblock| == 15 && iblock[14] == 7
    ensures var ptrs: Pointers := p => Sevens(a);
            var n := TripleLow(a) + Square(a);
            n < Blocks(a) && Overruns(ptrs, iblock, a, n) && Mapped(ptrs, iblock, a, n) == Found(7)
  {
    var ptrs: Pointers := p => Sevens(a);
    var n := TripleLow(a) + Square(a);
    TimesMono(2, a, Square(a));
    TimesSum(1, 1, Square(a));
    TimesOne(Square(a));
    QuotSquare(0, a);
    hide Times, Quot, Rem, Follow, Mapped;
    var r := Square(a);
    SecondLevel(a, r);
    MappedCases(ptrs, iblock, a, n);
    Follow3(ptrs, 7, Quot(r, Square(a)), Rem(Quot(r, a), a), Rem(r, a));
    Follow2(ptrs, 7, Rem(Quot(r, a), a), Rem(r, a));
    Follow1(ptrs, 7, Rem(r, a));
  }

  /** A pointer block in which every address is 7. */
  function Sevens(a: nat): (r: seq<nat>)
    ensures |r| == a && forall i :: 0 <= i < a ==> r[i] == 7
  {
    seq(a, _ => 7)
  }

  /** ext4_read_file_block, up to reading the data block it finds. */
  method ReadFileBlock(ptrs: Pointers, iblock: seq<nat>, a: nat, n: nat) returns (r: Outcome)
    requires a > 0 && |iblock| == 15 && (forall p :: |ptrs(p)| == a)
    ensures r == if Overruns(ptrs, iblock, a, n) then PastBuffer else Mapped(ptrs, iblock, a, n)
  {
    hide Times, Quot, Rem, Follow, Path;
    if n > Blocks(a) - 1 {
      return OutOfRange;
    }
    MappedCases(ptrs, iblock, a, n);
    hide Mapped;
    FollowEnds(ptrs, iblock[if n <= 11 then n else 12]);
    FollowEnds(ptrs, iblock[13]);
    var block := n;
    if block <= 11 {
      if iblock[block] == 0 {
        return Finished;
      }
      return Found(iblock[block]);
    }
    if block <= 11 + a {
      block := block - INDIRECT_LOW;
      if iblock[12] == 0 {
        return Finished;
      }
      var buf := ptrs(iblock[12]);
      Follow1(ptrs, iblock[12], block);
      if buf[block] == 0 {
        return Finished;
      }
      return Found(buf[block]);
    }
    if block <= 11 + a + Square(a) {
      block := block - DoubleLow(a);
      if iblock[13] == 0 {
        return Finished;
      }
      var buf := ptrs(iblock[13]);
      Follow2(ptrs, iblock[13], Quot(block, a), Rem(block, a));
      FollowEnds(ptrs, buf[Quot(block, a)]);
      if buf[Quot(block, a)] == 0 {
        return Finished;
      }
      Follow1(ptrs, buf[Quot(block, a)], Rem(block, a));
      buf := ptrs(buf[Quot(block, a)]);
      if buf[Rem(block, a)] == 0 {
        return Finished;
      }
      return Found(buf[Rem(block, a)]);
    }
    r := ReadTriple(ptrs, iblock, a, n);
  }

  lemma FollowEnds(ptrs: Pointers, p: nat)
    ensures p == 0 ==> forall path :: Follow(ptrs, p, path) == Finished
    ensures p != 0 ==> Follow(ptrs, p, []) == Found(p)
  {
  }

  /** The triple-indirect branch of ext4_read_file_block. */
  method ReadTriple(ptrs: Pointers, iblock: seq<nat>, a: nat, n: nat) returns (r: Outcome)
    requires a > 0 && |iblock| == 15 && (forall p :: |ptrs(p)| == a) && TripleLow(a) <= n < Blocks(a)
    ensures r == if Overruns(ptrs, iblock, a, n) then PastBuffer else Mapped(ptrs, iblock, a, n)
  {
    hide Times, Quot, Rem, Follow, Mapped;
    var block := n - TripleLow(a);
    SecondLevel(a, block);
    MappedCases(ptrs, iblock, a, n);
    var i, j, k := Quot(block, Square(a)), Quot(block, a), Rem(block, a);
    FollowEnds(ptrs, iblock[14]);
    if iblock[14] == 0 {
      return Finished;
    }
    var buf := ptrs(iblock[14]);
    Follow3(ptrs, iblock[14], i, Rem(j, a), k);
    FollowEnds(ptrs, buf[i]);
    if buf[i] == 0 {
      return Finished;
    }
    var level2 := buf[i];
    buf := ptrs(level2);
    if j >= |buf| {
      return PastBuffer;
    }
    Follow2(ptrs, level2, Rem(j, a), k);
    FollowEnds(ptrs, buf[j]);
    if buf[j] == 0 {
      return Finished;
    }
    Follow1(ptrs, buf[j], k);
    buf := ptrs(buf[j]);
    if buf[k] == 0 {
      return Finished;
    }
    return Found(buf[k]);
  }

  // ------------------------------------------------------------------ the serializing copy

  function Wrap(x: nat): nat { x % TWO32 }

  /** The byte address of a file system block. */
  function Address(blockSize: nat, offset: nat, block: nat): nat {
    Times(block, blockSize) + offset
  }

  /** The 32-bit sector recorded for a file system block. */
  function Sector(blockSize: nat, offset: nat, block: nat): nat {
    Wrap(Quot(Address(blockSize, offset, block), SECTOR_SIZE))
  }

  /** Up to 4096-byte blocks the range bounds fit 32 bits. */
  lemma {:induction false} BoundsFit(a: nat)
    requires 0 < a <= 1024
    ensures 12 + a + Square(a) + Cube(a) <= TWO32
    ensures Wrap(11 + a) == DoubleLow(a) - 1 && Wrap(Wrap(11 + a) + Square(a)) == TripleLow(a) - 1
    ensures Wrap(Wrap(Wrap(11 + a) + Square(a)) + Cube(a)) == Blocks(a) - 1
  {
    assert Times(1024, 1024) == 0x10_0000 && Times(1024, 0x10_0000) == 0x4000_0000;
    TimesSwap(a, 1024);
    TimesMono(a, 1024, a);
    TimesMono(a, 1024, 1024);
    TimesSwap(a, Square(a));
    TimesMono(Square(a), 0x10_0000, a);
    TimesSwap(0x10_0000, a);
    TimesMono(a, 1024, 0x10_0000);
    hide Times;
  }

  /** ext4_serialize_file_block_sectors: what it appends to the sector list, a pair of file
      sector and disk sector, for the same blocks the reading lookup finds. */
  method SerializeBlockSector(ptrs: Pointers, iblock: seq<nat>, a: nat, offset: nat, n: nat)
    returns (r: Outcome, key: nat, sector: nat)
    requires 0 < a <= 1024 && |iblock| == 15 && (forall p :: |ptrs(p)| == a) && n < TWO32
    ensures r == if Overruns(ptrs, iblock, a, n) then PastBuffer else Mapped(ptrs, iblock, a, n)
    ensures r.Found? ==>
              key == Wrap(Times(n, Quot(4 * a, SECTOR_SIZE))) && sector == Sector(4 * a, offset, r.block)
  {
    hide Times, Quot, Rem, Follow, Path;
    BoundsFit(a);
    var indirectHigh := Wrap(11 + a);
    var doubleHigh := Wrap(indirectHigh + Square(a));
    var tripleHigh := Wrap(doubleHigh + Cube(a));
    var perBlock := Quot(4 * a, SECTOR_SIZE);
    key, sector := 0, 0;
    if n > tripleHigh {
      return OutOfRange, key, sector;
    }
    MappedCases(ptrs, iblock, a, n);
    hide Mapped, Wrap;
    FollowEnds(ptrs, iblock[if n <= 11 then n else 12]);
    FollowEnds(ptrs, iblock[13]);
    var block := n;
    if block <= 11 {
      if iblock[block] == 0 {
        return Finished, key, sector;
      }
      key, sector := Wrap(Times(block, perBlock)), Sector(4 * a, offset, iblock[block]);
      return Found(iblock[block]), key, sector;
    }
    if block <= indirectHigh {
      block := block - INDIRECT_LOW;
      if iblock[12] == 0 {
        return Finished, key, sector;
      }
      var buf := ptrs(iblock[12]);
      Follow1(ptrs, iblock[12], block);
      if buf[block] == 0 {
        return Finished, key, sector;
      }
      key, sector := Wrap(Times(block + INDIRECT_LOW, perBlock)), Sector(4 * a, offset, buf[block]);
      return Found(buf[block]), key, sector;
    }
    if block <= doubleHigh {
      block := block - (indirectHigh + 1);
      if iblock[13] == 0 {
        return Finished, key, sector;
      }
      var buf := ptrs(iblock[13]);
      Follow2(ptrs, iblock[13], Quot(block, a), Rem(block, a));
      FollowEnds(ptrs, buf[Quot(block, a)]);
      if buf[Quot(block, a)] == 0 {
        return Finished, key, sector;
      }
      Follow1(ptrs, buf[Quot(block, a)], Rem(block, a));
      buf := ptrs(buf[Quot(block, a)]);
      if buf[Rem(block, a)] == 0 {
        return Finished, key, sector;
      }
      key, sector := Wrap(Times(block + indirectHigh + 1, perBlock)), Sector(4 * a, offset, buf[Rem(block, a)]);
      return Found(buf[Rem(block, a)]), key, sector;
    }
    r, key, sector := SerializeTriple(ptrs, iblock, a, offset, n);
  }

  method SerializeTriple(ptrs: Pointers, iblock: seq<nat>, a: nat, offset: nat, n: nat)
    returns (r: Outcome, key: nat, sector: nat)
    requires 0 < a <= 1024 && |iblock| == 15 && (forall p :: |ptrs(p)| == a) && TripleLow(a) <= n < Blocks(a)
    ensures r == if Overruns(ptrs, iblock, a, n) then PastBuffer else Mapped(ptrs, iblock, a, n)
    ensures r.Found? ==>
              key == Wrap(Times(n, Quot(4 * a, SECTOR_SIZE))) && sector == Sector(4 * a, offset, r.block)
  {
    hide Times, Quot, Rem, Follow, Mapped, Wrap;
    var block := n - TripleLow(a);
    SecondLevel(a, block);
    MappedCases(ptrs, iblock, a, n);
    var i, j, k := Quot(block, Square(a)), Quot(block, a), Rem(block, a);
    key, sector := 0, 0;
    FollowEnds(ptrs, iblock[14]);
    if iblock[14] == 0 {
      return Finished, key, sector;
    }
    var buf := ptrs(iblock[14]);
    Follow3(ptrs, iblock[14], i, Rem(j, a), k);
    FollowEnds(ptrs, buf[i]);
    if buf[i] == 0 {
      return Finished, key, sector;
    }
    var level2 := buf[i];
    buf := ptrs(level2);
    if j >= |buf| {
      return PastBuffer, key, sector;
    }
    Follow2(ptrs, level2, Rem(j, a), k);
    FollowEnds(ptrs, buf[j]);
    if buf[j] == 0 {
      return Finished, key, sector;
    }
    Follow1(ptrs, buf[j], k);
    buf := ptrs(buf[j]);
    if buf[k] == 0 {
      return Finished, key, sector;
    }
    key := Wrap(Times(block + TripleLow(a), Quot(4 * a, SECTOR_SIZE)));
    sector := Sector(4 * a, offset, buf[k]);
    return Found(buf[k]), key, sector;
  }

  /** With blocks of whole sectors, the recorded sector is where the block is read from if and only if
      the partition starts on a sector and the sector number fits 32 bits. */
  lemma {:induction false} SectorIsTheBlockRead(blockSize: nat, offset: nat, block: nat)
    requires blockSize % SECTOR_SIZE == 0
    ensures Sector(blockSize, offset, block) * SECTOR_SIZE == block * blockSize + offset <==>
              offset % SECTOR_SIZE == 0 && block * blockSize + offset < TWO32 * SECTOR_SIZE
  {
    var k := blockSize / SECTOR_SIZE;
    assert block * blockSize == block * k * SECTOR_SIZE by {
      assert blockSize == k * SECTOR_SIZE;
      assert block * (k * SECTOR_SIZE) == block * k * SECTOR_SIZE;
    }
    assert Quot(Address(blockSize, offset, block), SECTOR_SIZE) == (block * blockSize + offset) / SECTOR_SIZE;
    WholeSector(block * k, offset);
  }

  lemma {:induction false} WholeSector(m: nat, offset: nat)
    ensures (m * SECTOR_SIZE + offset) / SECTOR_SIZE % TWO32 * SECTOR_SIZE == m * SECTOR_SIZE + offset <==>
              offset % SECTOR_SIZE == 0 && m * SECTOR_SIZE + offset < TWO32 * SECTOR_SIZE
  {
    var x := m * SECTOR_SIZE + offset;
    assert x % SECTOR_SIZE == offset % SECTOR_SIZE;
    assert x == x / SECTOR_SIZE * SECTOR_SIZE + x % SECTOR_SIZE;
  }

  /** The recorded key is the file's own sector number, while that fits 32 bits. */
  lemma {:induction false} KeyIsFileSector(a: nat, n: nat)
    requires 4 * a % SECTOR_SIZE == 0 && n * (4 * a) < TWO32 * SECTOR_SIZE
    ensures Wrap(Times(n, Quot(4 * a, SECTOR_SIZE))) * SECTOR_SIZE == n * (4 * a)
  {
    var k := 4 * a / SECTOR_SIZE;
    assert n * (4 * a) == n * k * SECTOR_SIZE by {
      assert 4 * a == k * SECTOR_SIZE;
      assert n * (k * SECTOR_SIZE) == n * k * SECTOR_SIZE;
    }
  }
}
