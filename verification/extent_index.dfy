/**
 What the depth-0 extent diff (deep_inspection.c) does to a file's sector list and to the
 reverse pointers, as functions, and when the result is the file's real layout.
 */
module ExtentIndex {
  import opened Bytes
  import opened KvStores

  const HOLE: int := -1

  /** Block size and byte offset of the partition. */
  datatype Geometry = Geometry(blockSize: nat, offset: nat)

  /** `len` blocks of the file from logical block `block`, stored from disk block `start`. */
  datatype Extent = Extent(block: nat, len: nat, start: nat)

  /** 64-bit arithmetic: the sector of a file system block. */
  function SectorOf(g: Geometry, fsBlock: nat): nat {
    (fsBlock * g.blockSize + g.offset) % TWO64 / SECTOR_SIZE
  }

  function BlockSector(g: Geometry, e: Extent, i: nat): nat {
    SectorOf(g, (e.start + i) % TWO64)
  }

  function BlockPointer(g: Geometry, file: nat, e: Extent, i: nat): Pointer {
    FileData((e.block + i) * g.blockSize, (e.block + i) * g.blockSize + g.blockSize, file)
  }

  function Holes(n: nat): seq<int> {
    seq(n, _ => HOLE)
  }

  /** The list after the first `n` blocks of `e`; `oldLen` is the length read before the diff. */
  function PlaceBlocks(g: Geometry, list: seq<int>, oldLen: nat, e: Extent, n: nat): seq<int> {
    if n == 0 then list else
    var before := PlaceBlocks(g, list, oldLen, e, n - 1);
    var pos := e.block + n - 1;
    var sector := BlockSector(g, e, n - 1);
    if pos < oldLen then (if pos < |before| then before[pos := sector] else before) else before + [sector]
  }

  function PlaceExtent(g: Geometry, list: seq<int>, oldLen: nat, e: Extent): seq<int> {
    if e.block < oldLen then PlaceBlocks(g, list, oldLen, e, e.len)
    else PlaceBlocks(g, list + Holes(e.block - oldLen), oldLen, e, e.len)
  }

  function Place(g: Geometry, list: seq<int>, oldLen: nat, es: seq<Extent>): seq<int> {
    if es == [] then list else
    PlaceExtent(g, Place(g, list, oldLen, es[..|es| - 1]), oldLen, es[|es| - 1])
  }

  function PointBlocks(g: Geometry, m: map<nat, Pointer>, file: nat, e: Extent, n: nat): map<nat, Pointer> {
    if n == 0 then m else
    PointBlocks(g, m, file, e, n - 1)[BlockSector(g, e, n - 1) := BlockPointer(g, file, e, n - 1)]
  }

  function Point(g: Geometry, m: map<nat, Pointer>, file: nat, es: seq<Extent>): map<nat, Pointer> {
    if es == [] then m else
    PointBlocks(g, Point(g, m, file, es[..|es| - 1]), file, es[|es| - 1], es[|es| - 1].len)
  }

  // ------------------------------------------------------------------ what the list should be

  /** Sorted by block, disjoint, none empty: what ext4 stores in a leaf. */
  ghost predicate Sorted(es: seq<Extent>) {
    && (forall k :: 0 <= k < |es| ==> es[k].len > 0)
    && (forall j, k :: 0 <= j < k < |es| ==> es[j].block + es[j].len <= es[k].block)
  }

  ghost predicate Covers(e: Extent, b: int) {
    e.block <= b < e.block + e.len
  }

  ghost predicate Covered(es: seq<Extent>, b: int) {
    exists k :: 0 <= k < |es| && Covers(es[k], b)
  }

  /** The sectors of the first `n` blocks of an extent. */
  function Run(g: Geometry, e: Extent, n: nat): seq<int> {
    seq(n, i requires 0 <= i => BlockSector(g, e, i))
  }

  ghost predicate LocatedOne(g: Geometry, list: seq<int>, e: Extent) {
    e.block + e.len <= |list| && list[e.block..e.block + e.len] == Run(g, e, e.len)
  }

  /** Every covered block's entry is its sector. */
  ghost predicate Located(g: Geometry, list: seq<int>, es: seq<Extent>) {
    forall k :: 0 <= k < |es| ==> LocatedOne(g, list, es[k])
  }

  /** Blocks outside the extents keep their old entry; those past the old end are holes. */
  ghost predicate Untouched(list: seq<int>, was: seq<int>, es: seq<Extent>) {
    forall b :: 0 <= b < |list| && !Covered(es, b) ==> list[b] == (if b < |was| then was[b] else HOLE)
  }

  /** All extents but the last end within the old list. */
  ghost predicate LastAloneGrows(oldLen: nat, es: seq<Extent>) {
    forall k :: 0 <= k < |es| - 1 ==> es[k].block + es[k].len <= oldLen
  }

  /** One extent: overwrite what is inside the old list, append the rest. */
  lemma {:induction false} PlaceBlocksAt(g: Geometry, list: seq<int>, oldLen: nat, e: Extent, n: nat)
    requires |list| == (if e.block < oldLen then oldLen else e.block)
    ensures PlaceBlocks(g, list, oldLen, e, n) ==
            list[..e.block] + Run(g, e, n) + (if e.block + n <= |list| then list[e.block + n..] else [])
  {
    hide BlockSector;
    if n > 0 {
      PlaceBlocksAt(g, list, oldLen, e, n - 1);
      assert Run(g, e, n) == Run(g, e, n - 1) + [BlockSector(g, e, n - 1)];
    }
  }

  /** One extent against a list whose length was read just before. */
  lemma {:induction false} PlaceOne(g: Geometry, list: seq<int>, e: Extent)
    requires e.len > 0
    ensures var r := PlaceExtent(g, list, |list|, e);
            && |r| == (if e.block + e.len <= |list| then |list| else e.block + e.len)
            && LocatedOne(g, r, e)
            && forall b :: 0 <= b < |r| && !Covers(e, b) ==> r[b] == (if b < |list| then list[b] else HOLE)
  {
    hide PlaceBlocks, BlockSector;
    var grown := if e.block < |list| then list else list + Holes(e.block - |list|);
    var r := PlaceExtent(g, list, |list|, e);
    PlaceBlocksAt(g, grown, |list|, e, e.len);
    var rest := if e.block + e.len <= |grown| then grown[e.block + e.len..] else [];
    assert r == grown[..e.block] + Run(g, e, e.len) + rest;
    assert r[e.block..e.block + e.len] == Run(g, e, e.len);
  }

  /** Appending only: what stands in the list already stays. */
  lemma {:induction false} PlaceBlocksPast(g: Geometry, list: seq<int>, oldLen: nat, e: Extent, n: nat)
    requires e.block >= oldLen
    ensures list <= PlaceBlocks(g, list, oldLen, e, n)
  {
    if n > 0 {
      PlaceBlocksPast(g, list, oldLen, e, n - 1);
    }
  }

  lemma SortedPrefix(es: seq<Extent>, n: nat)
    requires Sorted(es) && n <= |es|
    ensures Sorted(es[..n])
  {
  }

  /** One more extent: what is known of the list for the others carries over. */
  lemma {:induction false} Extend(g: Geometry, before: seq<int>, r: seq<int>, list: seq<int>, es: seq<Extent>)
    requires es != [] && Sorted(es)
    requires Located(g, before, es[..|es| - 1]) && Untouched(before, list, es[..|es| - 1]) && |before| == |list| <= |r|
    requires forall b :: 0 <= b < |r| && !Covers(es[|es| - 1], b) ==> r[b] == (if b < |before| then before[b] else HOLE)
    requires LocatedOne(g, r, es[|es| - 1])
    ensures Located(g, r, es) && Untouched(r, list, es)
  {
    hide Run;
    var n := |es| - 1;
    forall k | 0 <= k < |es| ensures LocatedOne(g, r, es[k]) {
      if k < n {
        assert es[..n][k] == es[k];
        assert es[k].block + es[k].len <= es[n].block;
        assert r[es[k].block..es[k].block + es[k].len] == before[es[k].block..es[k].block + es[k].len];
      }
    }
    PrefixCovered(es);
  }

  lemma {:induction false} PlaceWithin(g: Geometry, list: seq<int>, es: seq<Extent>)
    requires Sorted(es) && (forall k :: 0 <= k < |es| ==> es[k].block + es[k].len <= |list|)
    ensures var r := Place(g, list, |list|, es);
            |r| == |list| && Located(g, r, es) && Untouched(r, list, es)
  {
    if es != [] {
      hide Run, Located, LocatedOne, Untouched, PlaceExtent;
      var n := |es| - 1;
      SortedPrefix(es, n);
      PlaceWithin(g, list, es[..n]);
      var before := Place(g, list, |list|, es[..n]);
      PlaceOne(g, before, es[n]);
      Extend(g, before, Place(g, list, |list|, es), list, es);
    }
  }

  lemma {:induction false} PrefixCovered(es: seq<Extent>)
    requires es != []
    ensures forall b :: Covered(es, b) <==> Covered(es[..|es| - 1], b) || Covers(es[|es| - 1], b)
  {
    var n := |es| - 1;
    forall b ensures Covered(es, b) <==> Covered(es[..n], b) || Covers(es[n], b) {
      if Covered(es[..n], b) {
        var k :| 0 <= k < n && Covers(es[..n][k], b);
        assert Covers(es[k], b);
      }
      if Covered(es, b) {
        var k :| 0 <= k < |es| && Covers(es[k], b);
        assert k < n ==> Covers(es[..n][k], b);
      }
    }
  }

  lemma {:induction false} PlaceLocates(g: Geometry, list: seq<int>, es: seq<Extent>)
    requires Sorted(es) && LastAloneGrows(|list|, es)
    ensures var r := Place(g, list, |list|, es);
            && |r| == (if es != [] && es[|es| - 1].block + es[|es| - 1].len > |list| then es[|es| - 1].block + es[|es| - 1].len else |list|)
            && Located(g, r, es) && Untouched(r, list, es)
  {
    if es != [] {
      hide Run, Located, LocatedOne, Untouched, PlaceExtent;
      var n := |es| - 1;
      SortedPrefix(es, n);
      PlaceWithin(g, list, es[..n]);
      var before := Place(g, list, |list|, es[..n]);
      PlaceOne(g, before, es[n]);
      Extend(g, before, Place(g, list, |list|, es), list, es);
    }
  }

  /** An extent behind the old end only appends. */
  lemma {:induction false} PlaceAppends(g: Geometry, list: seq<int>, es: seq<Extent>)
    requires es != [] && es[|es| - 1].block >= |list|
    ensures Place(g, list, |list|, es[..|es| - 1]) + Holes(es[|es| - 1].block - |list|) <= Place(g, list, |list|, es)
  {
    var e := es[|es| - 1];
    PlaceBlocksPast(g, Place(g, list, |list|, es[..|es| - 1]) + Holes(e.block - |list|), |list|, e, e.len);
  }

  /** When an extent before the last ends past the old end, the next one is pushed too far: its
      first block's entry is a hole, and later extents, which only append, leave it so. */
  lemma {:induction false} PlaceMisplaces(g: Geometry, list: seq<int>, es: seq<Extent>, j: nat)
    requires Sorted(es) && j + 1 < |es| && es[j].block + es[j].len > |list|
    requires forall k :: 0 <= k < j ==> es[k].block + es[k].len <= |list|
    ensures var r := Place(g, list, |list|, es);
            es[j + 1].block < |r| && r[es[j + 1].block] == HOLE
    decreases |es|
  {
    hide Place, Located, Untouched;
    var n := |es| - 1;
    SortedPrefix(es, n);
    assert es[j].block + es[j].len <= es[n].block;
    PlaceAppends(g, list, es);
    if j + 1 == n {
      PlaceLocates(g, list, es[..n]);
      assert es[..n][n - 1] == es[j];
    } else {
      PlaceMisplaces(g, list, es[..n], j);
    }
  }

  lemma {:induction false} FirstGrowing(list: seq<int>, es: seq<Extent>, n: nat) returns (j: nat)
    requires n < |es| && !(forall k :: 0 <= k < n ==> es[k].block + es[k].len <= |list|)
    ensures j < n && es[j].block + es[j].len > |list| && forall k :: 0 <= k < j ==> es[k].block + es[k].len <= |list|
  {
    if forall k :: 0 <= k < n - 1 ==> es[k].block + es[k].len <= |list| {
      j := n - 1;
    } else {
      j := FirstGrowing(list, es, n - 1);
    }
  }

  /** The diff leaves every block of a sorted leaf at its sector if and only if no extent but
      the last reaches past the end the list had before; then nothing else moves, and a gap
      behind the old end is filled with holes. */
  lemma {:induction false} LocatedIffLastAloneGrows(g: Geometry, list: seq<int>, es: seq<Extent>)
    requires Sorted(es)
    ensures Located(g, Place(g, list, |list|, es), es) <==> LastAloneGrows(|list|, es)
    ensures LastAloneGrows(|list|, es) ==> Untouched(Place(g, list, |list|, es), list, es)
  {
    hide Place;
    if LastAloneGrows(|list|, es) {
      PlaceLocates(g, list, es);
    } else {
      var j := FirstGrowing(list, es, |es| - 1);
      PlaceMisplaces(g, list, es, j);
      assert Covers(es[j + 1], es[j + 1].block);
    }
  }

  /** Two new extents behind the end of an empty file: the second block reads as a hole. */
  lemma {:induction false} SecondExtentIsMisplaced(g: Geometry)
    ensures var es := [Extent(0, 1, 100), Extent(1, 1, 200)];
            Sorted(es) && !Located(g, Place(g, [], 0, es), es)
  {
    var es := [Extent(0, 1, 100), Extent(1, 1, 200)];
    assert es[0].block + es[0].len == 1;
    PlaceMisplaces(g, [], es, 0);
    LocatedIffLastAloneGrows(g, [], es);
  }

  // ------------------------------------------------------------------ a second diff

  lemma Extensional(a: seq<int>, b: seq<int>)
    requires |a| == |b| && forall i :: 0 <= i < |a| ==> a[i] == b[i]
    ensures a == b
  {
  }

  /** Diffing the same leaf again leaves the list alone. */
  lemma {:induction false} PlaceAgain(g: Geometry, list: seq<int>, es: seq<Extent>)
    requires Sorted(es) && LastAloneGrows(|list|, es)
    ensures var r := Place(g, list, |list|, es); Place(g, r, |r|, es) == r
  {
    hide Place, Run, PlaceExtent;
    var r := Place(g, list, |list|, es);
    PlaceLocates(g, list, es);
    forall k | 0 <= k < |es| ensures es[k].block + es[k].len <= |r| {
      assert k < |es| - 1 ==> es[k].block + es[k].len <= |list|;
    }
    PlaceWithin(g, r, es);
    var again := Place(g, r, |r|, es);
    forall b | 0 <= b < |r| ensures again[b] == r[b] {
      if Covered(es, b) {
        var k :| 0 <= k < |es| && Covers(es[k], b);
        var i := b - es[k].block;
        assert LocatedOne(g, again, es[k]) && LocatedOne(g, r, es[k]);
        assert again[es[k].block..es[k].block + es[k].len][i] == r[es[k].block..es[k].block + es[k].len][i];
      }
    }
    Extensional(again, r);
  }

  lemma {:induction false} PointBlocksMerge(g: Geometry, m: map<nat, Pointer>, file: nat, e: Extent, n: nat)
    ensures PointBlocks(g, m, file, e, n) == m + PointBlocks(g, map[], file, e, n)
  {
    if n == 0 {
      assert m + map[] == m;
    } else {
      PointBlocksMerge(g, m, file, e, n - 1);
    }
  }

  lemma {:induction false} PointMerge(g: Geometry, m: map<nat, Pointer>, file: nat, es: seq<Extent>)
    ensures Point(g, m, file, es) == m + Point(g, map[], file, es)
  {
    if es == [] {
      assert m + map[] == m;
    } else {
      var n := |es| - 1;
      var inner := Point(g, map[], file, es[..n]);
      PointMerge(g, m, file, es[..n]);
      PointBlocksMerge(g, m + inner, file, es[n], es[n].len);
      PointBlocksMerge(g, inner, file, es[n], es[n].len);
    }
  }

  /** Diffing the same leaf again leaves the reverse pointers alone. */
  lemma {:induction false} PointAgain(g: Geometry, m: map<nat, Pointer>, file: nat, es: seq<Extent>)
    ensures Point(g, Point(g, m, file, es), file, es) == Point(g, m, file, es)
  {
    PointMerge(g, m, file, es);
    PointMerge(g, Point(g, m, file, es), file, es);
  }

  // ------------------------------------------------------------------ reverse pointers

  /** No sector holds two of the file's blocks. */
  ghost predicate OneBlockPerSector(g: Geometry, es: seq<Extent>) {
    forall j, k, a, b :: 0 <= j < |es| && 0 <= k < |es| && Covers(es[j], a) && Covers(es[k], b) && a != b ==>
      BlockSector(g, es[j], a - es[j].block) != BlockSector(g, es[k], b - es[k].block)
  }

  lemma {:induction false} PointBlocksFrame(g: Geometry, m: map<nat, Pointer>, file: nat, e: Extent, n: nat, sector: nat)
    requires n <= e.len && forall b :: Covers(e, b) ==> BlockSector(g, e, b - e.block) != sector
    ensures var r := PointBlocks(g, m, file, e, n);
            (sector in r <==> sector in m) && (sector in m ==> r[sector] == m[sector])
  {
    if n > 0 {
      PointBlocksFrame(g, m, file, e, n - 1, sector);
      assert Covers(e, e.block + n - 1);
    }
  }

  lemma {:induction false} PointBlocksAt(g: Geometry, m: map<nat, Pointer>, file: nat, e: Extent, n: nat, i: nat)
    requires i < n <= e.len && OneBlockPerSector(g, [e])
    ensures var r := PointBlocks(g, m, file, e, n);
            BlockSector(g, e, i) in r && r[BlockSector(g, e, i)] == BlockPointer(g, file, e, i)
  {
    if i < n - 1 {
      PointBlocksAt(g, m, file, e, n - 1, i);
      assert [e][0] == e && Covers(e, e.block + i) && Covers(e, e.block + n - 1);
    }
  }

  /** Afterwards the pointer of every covered block's sector names the file and the block's
      byte range, and sectors that hold none of them keep theirs. */
  lemma {:induction false} PointersAreRight(g: Geometry, m: map<nat, Pointer>, file: nat, es: seq<Extent>, k: nat, i: nat)
    requires Sorted(es) && OneBlockPerSector(g, es) && k < |es| && i < es[k].len
    ensures var r := Point(g, m, file, es);
            BlockSector(g, es[k], i) in r && r[BlockSector(g, es[k], i)] == BlockPointer(g, file, es[k], i)
    decreases |es|
  {
    var n := |es| - 1;
    assert Covers(es[k], es[k].block + i);
    if k == n {
      assert OneBlockPerSector(g, [es[n]]) by {
        assert forall j :: 0 <= j < 1 ==> [es[n]][j] == es[n];
      }
      PointBlocksAt(g, Point(g, m, file, es[..n]), file, es[n], es[n].len, i);
    } else {
      SortedPrefix(es, n);
      PrefixOneBlock(g, es, n);
      PointersAreRight(g, m, file, es[..n], k, i);
      PointBlocksFrame(g, Point(g, m, file, es[..n]), file, es[n], es[n].len, BlockSector(g, es[k], i));
    }
  }

  lemma PrefixOneBlock(g: Geometry, es: seq<Extent>, n: nat)
    requires OneBlockPerSector(g, es) && n <= |es|
    ensures OneBlockPerSector(g, es[..n])
  {
  }

  lemma {:induction false} OtherPointersStay(g: Geometry, m: map<nat, Pointer>, file: nat, es: seq<Extent>, sector: nat)
    requires forall k, b :: 0 <= k < |es| && Covers(es[k], b) ==> BlockSector(g, es[k], b - es[k].block) != sector
    ensures var r := Point(g, m, file, es);
            (sector in r <==> sector in m) && (sector in m ==> r[sector] == m[sector])
  {
    if es != [] {
      var n := |es| - 1;
      OtherPointersStay(g, m, file, es[..n], sector);
      PointBlocksFrame(g, Point(g, m, file, es[..n]), file, es[n], es[n].len, sector);
    }
  }
}
