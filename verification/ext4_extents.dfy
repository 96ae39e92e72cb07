/**
 Extent-tree search in ext4.c. One loop walks the entries of a node; to go down a level it
 overwrites the node and starts over. An index entry is only taken when the next one lies above
 the block sought (or it is the only one), so the last entry of a longer index is never entered.
 The source has three copies of the loop, which differ in what they do with the extent found.
 */
module Ext4Extents {
  import opened Bytes
  import opened ExtentIndex

  datatype Idx = Idx(key: nat, leaf: nat)

  datatype Node = LeafNode(extents: seq<Extent>) | IndexNode(depth: nat, entries: seq<Idx>)
  {
    function Depth(): nat { if IndexNode? then depth + 1 else 0 }
    function Count(): nat { if IndexNode? then |entries| else |extents| }
  }

  /** The node in each file system block. */
  type Disk = nat -> Node

  /** The 32-bit test of the search. */
  predicate Hits(e: Extent, b: nat) {
    e.block <= b < (e.block + e.len) % TWO32
  }

  /** The loop's variables: current node, entry, and the entry before it. */
  datatype Cursor = Cursor(node: Node, i: nat, idx: Idx)

  /** One pass over an index entry, textually the same in the three copies: go down to the only
      entry, or to the previous entry when this one is above the block, and start over there with
      the key reset but the leaf kept; else go on to the next entry. */
  function IndexPass(disk: Disk, b: nat, node: Node, i: nat, idx: Idx): Cursor
    requires node.IndexNode? && i < |node.entries|
  {
    var idx2 := node.entries[i];
    if |node.entries| == 1 then Cursor(disk(idx2.leaf), 0, Idx(0, idx.leaf))
    else if b < idx2.key && b >= idx.key then Cursor(disk(idx.leaf), 0, Idx(0, idx.leaf))
    else Cursor(node, i + 1, idx2)
  }

  /** Why the first key must not be above the block: a node reached through the entry kept in
      `idx` is then entered again and again. */
  lemma StaleEntrySpins(disk: Disk, b: nat, node: Node, leaf: nat)
    requires node.IndexNode? && |node.entries| > 1 && b < node.entries[0].key && disk(leaf) == node
    ensures IndexPass(disk, b, node, 0, Idx(0, leaf)) == Cursor(node, 0, Idx(0, leaf))
  {
  }

  // ------------------------------------------------------------------ what the loop computes

  ghost predicate SortedKeys(entries: seq<Idx>) {
    forall j, k :: 0 <= j < k < |entries| ==> entries[j].key < entries[k].key
  }

  /** The last entry whose key is not above the block. */
  function Select(entries: seq<Idx>, b: nat): (k: nat)
    requires entries != [] && entries[0].key <= b
    ensures k < |entries| && entries[k].key <= b && forall j :: k < j < |entries| ==> b < entries[j].key
  {
    var last := |entries| - 1;
    if entries[last].key <= b then last else Select(entries[..last], b)
  }

  /** The search leaves this index node downwards. */
  predicate Descends(entries: seq<Idx>, b: nat) {
    entries != [] && (|entries| == 1 || b < entries[|entries| - 1].key)
  }

  /** The entry the search goes down to: the only one, whatever its key, or the one selected. */
  function Chosen(entries: seq<Idx>, b: nat): (k: nat)
    requires entries != [] && (|entries| > 1 ==> entries[0].key <= b)
    ensures k < |entries|
  {
    if |entries| == 1 then 0 else Select(entries, b)
  }

  /** On the way down depths decrease, keys are sorted and no first key of several is above the block. */
  ghost predicate PathOk(disk: Disk, node: Node, b: nat)
    decreases node.Depth()
  {
    node.IndexNode? && node.entries != [] ==>
      && SortedKeys(node.entries) && (|node.entries| > 1 ==> node.entries[0].key <= b)
      && (Descends(node.entries, b) ==>
            var child := disk(node.entries[Chosen(node.entries, b)].leaf);
            child.Depth() < node.Depth() && PathOk(disk, child, b))
  }

  function FirstHit(extents: seq<Extent>, b: nat): Option<Extent> {
    if extents == [] then None else if Hits(extents[0], b) then Some(extents[0]) else FirstHit(extents[1..], b)
  }

  ghost function Lookup(disk: Disk, node: Node, b: nat): Option<Extent>
    requires PathOk(disk, node, b)
    decreases node.Depth()
  {
    if node.LeafNode? then FirstHit(node.extents, b)
    else if Descends(node.entries, b) then Lookup(disk, disk(node.entries[Chosen(node.entries, b)].leaf), b)
    else None
  }

  lemma SelectIs(entries: seq<Idx>, b: nat, k: nat)
    requires SortedKeys(entries) && k < |entries| && entries[0].key <= b
    requires entries[k].key <= b && (k + 1 < |entries| ==> b < entries[k + 1].key)
    ensures Select(entries, b) == k
  {
  }

  /** Where the loop stands at entry `i`: `prev` is the entry before it. */
  ghost predicate Scanning(disk: Disk, root: Node, b: nat, node: Node, i: nat, prev: Idx)
    requires PathOk(disk, root, b)
  {
    && PathOk(disk, node, b) && Lookup(disk, node, b) == Lookup(disk, root, b)
    && i <= node.Count()
    && (node.LeafNode? ==> FirstHit(node.extents, b) == FirstHit(node.extents[i..], b))
    && (node.IndexNode? && i == 0 ==> prev.key == 0)
    && (node.IndexNode? && i > 0 ==> prev == node.entries[i - 1] && prev.key <= b && |node.entries| > 1)
  }

  lemma {:induction false} StartScan(disk: Disk, root: Node, b: nat, prev: Idx)
    requires PathOk(disk, root, b) && prev.key == 0
    ensures Scanning(disk, root, b, root, 0, prev)
  {
    assert root.LeafNode? ==> root.extents[0..] == root.extents;
  }

  /** Entering `entries[k]`, the one selected, starts a scan of its node. */
  lemma {:induction false} Enter(disk: Disk, root: Node, b: nat, node: Node, i: nat, prev: Idx, k: nat)
    requires PathOk(disk, root, b) && Scanning(disk, root, b, node, i, prev) && node.IndexNode?
    requires k < |node.entries|
    requires |node.entries| == 1 || (node.entries[k].key <= b && k + 1 < |node.entries| && b < node.entries[k + 1].key)
    ensures var child := disk(node.entries[k].leaf);
            child.Depth() < node.Depth() && Scanning(disk, root, b, child, 0, Idx(0, prev.leaf))
  {
    if |node.entries| > 1 {
      SelectIs(node.entries, b, k);
    }
    var last := |node.entries| - 1;
    assert |node.entries| > 1 ==> node.entries[k + 1].key <= node.entries[last].key;
    var child := disk(node.entries[k].leaf);
    assert child.LeafNode? ==> child.extents[0..] == child.extents;
  }

  lemma {:induction false} PassExtent(disk: Disk, root: Node, b: nat, node: Node, i: nat, prev: Idx)
    requires PathOk(disk, root, b) && Scanning(disk, root, b, node, i, prev) && node.LeafNode? && i < node.Count()
    ensures Hits(node.extents[i], b) ==> Lookup(disk, root, b) == Some(node.extents[i])
    ensures !Hits(node.extents[i], b) ==> Scanning(disk, root, b, node, i + 1, prev)
  {
    assert node.extents[i..][1..] == node.extents[i + 1..];
  }

  lemma ScanEnds(disk: Disk, root: Node, b: nat, node: Node, prev: Idx)
    requires PathOk(disk, root, b) && Scanning(disk, root, b, node, node.Count(), prev)
    ensures Lookup(disk, root, b) == None
  {
  }

  /** A pass over an index entry keeps the scan right and gets closer to its end. */
  lemma {:induction false} IndexStep(disk: Disk, root: Node, b: nat, node: Node, i: nat, prev: Idx)
    requires PathOk(disk, root, b) && Scanning(disk, root, b, node, i, prev) && node.IndexNode? && i < node.Count()
    ensures var c := IndexPass(disk, b, node, i, prev);
            && Scanning(disk, root, b, c.node, c.i, c.idx)
            && (c.node.Depth() < node.Depth() || (c.node == node && c.i == i + 1))
  {
    var entries := node.entries;
    assert |entries| > 1 ==> entries[0].key <= b;
    if |entries| == 1 {
      Enter(disk, root, b, node, i, prev, i);
    } else if b < entries[i].key && b >= prev.key {
      Enter(disk, root, b, node, i, prev, i - 1);
    }
  }

  // ------------------------------------------------------------------ the three copies

  /** ext4_sector_extent_block: the sector of the block, 0 for a hole. */
  method SectorExtentBlock(disk: Disk, g: Geometry, root: Node, b: nat) returns (sector: nat)
    requires PathOk(disk, root, b)
    ensures match Lookup(disk, root, b)
            case Some(e) => b >= e.block && sector == BlockSector(g, e, b - e.block)
            case None => sector == 0
  {
    hide Lookup, PathOk, Scanning, FirstHit, BlockSector, IndexPass;
    var node, i: nat, idx := root, 0, Idx(0, 0);
    StartScan(disk, root, b, idx);
    while i < node.Count()
      invariant Scanning(disk, root, b, node, i, idx) && i <= node.Count()
      decreases node.Depth(), node.Count() - i
    {
      if node.IndexNode? {
        IndexStep(disk, root, b, node, i, idx);
        var next := IndexPass(disk, b, node, i, idx);
        node, i, idx := next.node, next.i, next.idx;
      } else {
        PassExtent(disk, root, b, node, i, idx);
        var e := node.extents[i];
        if e.block <= b < (e.block + e.len) % TWO32 {
          return BlockSector(g, e, b - e.block);
        }
        i := i + 1;
      }
    }
    ScanEnds(disk, root, b, node, idx);
    return 0;
  }

  /** ext4_read_extent_block: the block's bytes, zeros for a hole. */
  method ReadExtentBlock(disk: Disk, content: nat -> seq<Byte>, g: Geometry, root: Node, b: nat) returns (buf: seq<Byte>)
    requires PathOk(disk, root, b)
    ensures match Lookup(disk, root, b)
            case Some(e) => b >= e.block && buf == content(e.start + b - e.block)
            case None => buf == Zeros(g.blockSize)
  {
    hide Lookup, PathOk, Scanning, FirstHit, IndexPass;
    var node, i: nat, idx := root, 0, Idx(0, 0);
    StartScan(disk, root, b, idx);
    while i < node.Count()
      invariant Scanning(disk, root, b, node, i, idx) && i <= node.Count()
      decreases node.Depth(), node.Count() - i
    {
      if node.IndexNode? {
        IndexStep(disk, root, b, node, i, idx);
        var next := IndexPass(disk, b, node, i, idx);
        node, i, idx := next.node, next.i, next.idx;
      } else {
        PassExtent(disk, root, b, node, i, idx);
        var e := node.extents[i];
        if e.block <= b < (e.block + e.len) % TWO32 {
          return content(e.start + b - e.block);
        }
        i := i + 1;
      }
    }
    ScanEnds(disk, root, b, node, idx);
    return Zeros(g.blockSize);
  }

  /** ext4_serialize_file_extent_sectors: the 32-bit value appended to the sector list, or the
      failure on which its caller records a hole. */
  method SerializeExtentSector(disk: Disk, g: Geometry, root: Node, b: nat) returns (value: Option<nat>)
    requires PathOk(disk, root, b)
    ensures match Lookup(disk, root, b)
            case Some(e) => b >= e.block && value == Some(BlockSector(g, e, b - e.block) % TWO32)
            case None => value == None
  {
    hide Lookup, PathOk, Scanning, FirstHit, BlockSector, IndexPass;
    var node, i: nat, idx := root, 0, Idx(0, 0);
    StartScan(disk, root, b, idx);
    while i < node.Count()
      invariant Scanning(disk, root, b, node, i, idx) && i <= node.Count()
      decreases node.Depth(), node.Count() - i
    {
      if node.IndexNode? {
        IndexStep(disk, root, b, node, i, idx);
        var next := IndexPass(disk, b, node, i, idx);
        node, i, idx := next.node, next.i, next.idx;
      } else {
        PassExtent(disk, root, b, node, i, idx);
        var e := node.extents[i];
        if e.block <= b < (e.block + e.len) % TWO32 {
          return Some(BlockSector(g, e, b - e.block) % TWO32);
        }
        i := i + 1;
      }
    }
    ScanEnds(disk, root, b, node, idx);
    return None;
  }

  // ------------------------------------------------------------------ trees

  /** The extents below an index entry lie between its key and the next one. */
  ghost predicate Tree(disk: Disk, node: Node, lo: nat, hi: nat)
    decreases node.Depth()
  {
    match node
    case LeafNode(extents) =>
      Sorted(extents) && forall k :: 0 <= k < |extents| ==> lo <= extents[k].block && extents[k].block + extents[k].len <= hi
    case IndexNode(_, entries) =>
      && SortedKeys(entries)
      && forall k :: 0 <= k < |entries| ==>
           && lo <= entries[k].key <= Above(entries, k, hi) <= hi
           && disk(entries[k].leaf).Depth() < node.Depth()
           && Tree(disk, disk(entries[k].leaf), entries[k].key, Above(entries, k, hi))
  }

  ghost function Above(entries: seq<Idx>, k: nat, hi: nat): nat {
    if k + 1 < |entries| then entries[k + 1].key else hi
  }

  ghost predicate Holds(disk: Disk, node: Node, e: Extent)
    decreases node.Depth()
  {
    match node
    case LeafNode(extents) => e in extents
    case IndexNode(_, entries) =>
      exists k :: 0 <= k < |entries| && disk(entries[k].leaf).Depth() < node.Depth() && Holds(disk, disk(entries[k].leaf), e)
  }

  ghost predicate Maps(disk: Disk, node: Node, e: Extent, b: nat) {
    Holds(disk, node, e) && e.block <= b < e.block + e.len
  }

  ghost predicate Mapped(disk: Disk, node: Node, b: nat) {
    exists e :: Maps(disk, node, e, b)
  }

  /** The search goes down at every index node on its way. */
  ghost predicate Reaches(disk: Disk, node: Node, b: nat)
    requires PathOk(disk, node, b)
    decreases node.Depth()
  {
    node.IndexNode? ==>
      Descends(node.entries, b) && Reaches(disk, disk(node.entries[Chosen(node.entries, b)].leaf), b)
  }

  lemma {:induction false} HeldWithin(disk: Disk, node: Node, lo: nat, hi: nat, e: Extent)
    requires Tree(disk, node, lo, hi) && Holds(disk, node, e)
    ensures lo <= e.block && e.block + e.len <= hi
    decreases node.Depth()
  {
    if node.IndexNode? {
      var k :| 0 <= k < |node.entries| && disk(node.entries[k].leaf).Depth() < node.Depth()
               && Holds(disk, disk(node.entries[k].leaf), e);
      HeldWithin(disk, disk(node.entries[k].leaf), node.entries[k].key, Above(node.entries, k, hi), e);
    }
  }

  /** An extent that maps the block is below the selected entry. */
  lemma {:induction false} HeldBySelected(disk: Disk, node: Node, lo: nat, hi: nat, e: Extent, b: nat)
    requires Tree(disk, node, lo, hi) && Maps(disk, node, e, b) && node.IndexNode?
    requires node.entries != [] && (|node.entries| > 1 ==> node.entries[0].key <= b)
    ensures Maps(disk, disk(node.entries[Chosen(node.entries, b)].leaf), e, b)
  {
    var k :| 0 <= k < |node.entries| && disk(node.entries[k].leaf).Depth() < node.Depth()
             && Holds(disk, disk(node.entries[k].leaf), e);
    HeldWithin(disk, disk(node.entries[k].leaf), node.entries[k].key, Above(node.entries, k, hi), e);
    if |node.entries| > 1 {
      SelectIs(node.entries, b, k);
    }
  }

  lemma HeldByChild(disk: Disk, node: Node, k: nat, e: Extent, b: nat)
    requires node.IndexNode? && k < |node.entries| && disk(node.entries[k].leaf).Depth() < node.Depth()
    requires Maps(disk, disk(node.entries[k].leaf), e, b)
    ensures Maps(disk, node, e, b)
  {
  }

  lemma {:induction false} MappedBySelected(disk: Disk, node: Node, lo: nat, hi: nat, b: nat)
    requires Tree(disk, node, lo, hi) && node.IndexNode? && node.entries != []
    requires |node.entries| > 1 ==> node.entries[0].key <= b
    ensures Mapped(disk, node, b) <==> Mapped(disk, disk(node.entries[Chosen(node.entries, b)].leaf), b)
  {
    hide Maps;
    var s := Chosen(node.entries, b);
    var child := disk(node.entries[s].leaf);
    if Mapped(disk, node, b) {
      var e :| Maps(disk, node, e, b);
      HeldBySelected(disk, node, lo, hi, e, b);
    }
    if Mapped(disk, child, b) {
      var e :| Maps(disk, child, e, b);
      HeldByChild(disk, node, s, e, b);
    }
  }

  lemma {:induction false} MapsOnce(disk: Disk, node: Node, lo: nat, hi: nat, e: Extent, e': Extent, b: nat)
    requires Tree(disk, node, lo, hi) && Maps(disk, node, e, b) && Maps(disk, node, e', b)
    ensures e == e'
    decreases node.Depth()
  {
    if node.IndexNode? {
      var k :| 0 <= k < |node.entries| && disk(node.entries[k].leaf).Depth() < node.Depth()
               && Holds(disk, disk(node.entries[k].leaf), e);
      HeldWithin(disk, disk(node.entries[k].leaf), node.entries[k].key, Above(node.entries, k, hi), e);
      assert node.entries[0].key <= b by {
        assert k > 0 ==> node.entries[0].key < node.entries[k].key;
      }
      HeldBySelected(disk, node, lo, hi, e, b);
      HeldBySelected(disk, node, lo, hi, e', b);
      var s := Chosen(node.entries, b);
      MapsOnce(disk, disk(node.entries[s].leaf), node.entries[s].key, Above(node.entries, s, hi), e, e', b);
    }
  }

  lemma {:induction false} FirstHitIff(extents: seq<Extent>, b: nat)
    requires forall k :: 0 <= k < |extents| ==> extents[k].block + extents[k].len < TWO32
    ensures FirstHit(extents, b).Some? <==> exists k :: 0 <= k < |extents| && extents[k].block <= b < extents[k].block + extents[k].len
    ensures FirstHit(extents, b).Some? ==>
              var e := FirstHit(extents, b).value; e in extents && e.block <= b < e.block + e.len
  {
    if extents != [] {
      FirstHitIff(extents[1..], b);
      assert forall k :: 1 <= k < |extents| ==> extents[k] == extents[1..][k - 1];
      if !Hits(extents[0], b) && exists k :: 0 <= k < |extents| && extents[k].block <= b < extents[k].block + extents[k].len {
        var k :| 0 <= k < |extents| && extents[k].block <= b < extents[k].block + extents[k].len;
        assert extents[1..][k - 1].block <= b;
      }
    }
  }

  /** On an extent tree the search finds an extent if and only if some extent maps the block and
      no multi-entry index node on the way has its last key at or below the block; what it finds
      is the one extent that maps the block. */
  lemma {:induction false} FoundIff(disk: Disk, node: Node, lo: nat, hi: nat, b: nat)
    requires Tree(disk, node, lo, hi) && PathOk(disk, node, b) && hi < TWO32
    ensures Lookup(disk, node, b).Some? <==> Reaches(disk, node, b) && Mapped(disk, node, b)
    ensures Lookup(disk, node, b).Some? ==> Maps(disk, node, Lookup(disk, node, b).value, b)
    decreases node.Depth()
  {
    if node.LeafNode? {
      FoundInLeaf(disk, node, hi, b);
    } else if Descends(node.entries, b) {
      hide Maps, Mapped;
      var s := Chosen(node.entries, b);
      var child := disk(node.entries[s].leaf);
      FoundIff(disk, child, node.entries[s].key, Above(node.entries, s, hi), b);
      MappedBySelected(disk, node, lo, hi, b);
      assert Lookup(disk, node, b) == Lookup(disk, child, b) && Reaches(disk, node, b) == Reaches(disk, child, b);
      if Lookup(disk, child, b).Some? {
        HeldByChild(disk, node, s, Lookup(disk, child, b).value, b);
      }
    }
  }

  lemma {:induction false} FoundInLeaf(disk: Disk, node: Node, hi: nat, b: nat)
    requires node.LeafNode? && hi < TWO32
    requires forall k :: 0 <= k < |node.extents| ==> node.extents[k].block + node.extents[k].len <= hi
    ensures FirstHit(node.extents, b).Some? <==> Mapped(disk, node, b)
    ensures FirstHit(node.extents, b).Some? ==> Maps(disk, node, FirstHit(node.extents, b).value, b)
  {
    FirstHitIff(node.extents, b);
    if FirstHit(node.extents, b).Some? {
      assert Maps(disk, node, FirstHit(node.extents, b).value, b);
    }
    if Mapped(disk, node, b) {
      var e :| Maps(disk, node, e, b);
      var k :| 0 <= k < |node.extents| && node.extents[k] == e;
      assert node.extents[k].block <= b < node.extents[k].block + node.extents[k].len;
    }
  }

  /** A two-entry index: the blocks below its last entry are reported as holes. */
  lemma {:induction false} LastLeafIsMissed(disk: Disk, b: nat)
    requires 100 <= b < 200 && disk(7) == LeafNode([Extent(0, 100, 1000)]) && disk(8) == LeafNode([Extent(100, 100, 5000)])
    ensures var root := IndexNode(0, [Idx(0, 7), Idx(100, 8)]);
            && Tree(disk, root, 0, 200) && PathOk(disk, root, b)
            && Maps(disk, root, Extent(100, 100, 5000), b) && Lookup(disk, root, b) == None
  {
    var root := IndexNode(0, [Idx(0, 7), Idx(100, 8)]);
    assert Tree(disk, root, 0, 200) by {
      assert Tree(disk, disk(7), 0, 100) && Tree(disk, disk(8), 100, 200);
    }
    assert Maps(disk, root, Extent(100, 100, 5000), b) by {
      assert disk(8).extents[0] == Extent(100, 100, 5000);
      HeldByChild(disk, root, 1, Extent(100, 100, 5000), b);
    }
  }
}
