/**
 What is done with an NTFS run list: the crawler assembles the stream in 4096-byte pieces and
 lists its sectors (ntfs.c), the inferencer lists them again when the record is rewritten
 (deep_inspection.c).
 */
module NtfsStream {
  import opened Arithmetic
  import opened Bytes
  import opened NtfsRuns

  const CHUNK: nat := 4096
  const LCN_LIMIT: int := 26214400

  /** Bytes per cluster and first byte of the partition. */
  datatype Volume = Volume(cluster: nat, offset: nat)
  {
    /** ntfs_lcn_to_offset */
    function At(lcn: nat): nat { Times(lcn, cluster) + offset }
    function Size(length: nat): nat { Times(length, cluster) }
  }

  /** The bytes still wanted after a run: the crawler stops at zero, the inferencer's 64-bit counter
      does not. */
  datatype Program = Crawler | Inferencer
  {
    function Left(left: nat, size: nat): nat {
      match this
      case Crawler => left - Min(size, left)
      case Inferencer => (left - size) % TWO64
    }
  }

  /** The checks the source asserts: the first cluster of every run it takes is on the volume. */
  ghost predicate Placed(who: Program, v: Volume, rs: seq<RunSpec>, prev: int, left: nat)
    decreases rs
  {
    rs != [] && left > 0 ==>
      && 0 <= prev + rs[0].delta < LCN_LIMIT
      && Placed(who, v, rs[1..], prev + rs[0].delta, who.Left(left, v.Size(rs[0].length)))
  }

  /** The bytes wanted of every run are on the disk. */
  ghost predicate OnDisk(disk: seq<Byte>, v: Volume, rs: seq<RunSpec>, prev: int, left: nat)
    requires Placed(Crawler, v, rs, prev, left)
    decreases rs
  {
    rs != [] && left > 0 ==>
      var n := Min(v.Size(rs[0].length), left);
      && v.At(prev + rs[0].delta) + n <= |disk|
      && OnDisk(disk, v, rs[1..], prev + rs[0].delta, left - n)
  }

  /** The wanted bytes of the runs, one after the other. */
  ghost function Content(disk: seq<Byte>, v: Volume, rs: seq<RunSpec>, prev: int, left: nat): (r: seq<Byte>)
    requires Placed(Crawler, v, rs, prev, left) && OnDisk(disk, v, rs, prev, left)
    ensures |r| <= left
    decreases rs
  {
    if rs == [] || left == 0 then [] else
    var from, n := v.At(prev + rs[0].delta), Min(v.Size(rs[0].length), left);
    disk[from..from + n] + Content(disk, v, rs[1..], prev + rs[0].delta, left - n)
  }

  /** All bytes of all runs. */
  function TotalSize(v: Volume, rs: seq<RunSpec>): nat {
    if rs == [] then 0 else v.Size(rs[0].length) + TotalSize(v, rs[1..])
  }

  lemma {:induction false} ContentLength(disk: seq<Byte>, v: Volume, rs: seq<RunSpec>, prev: int, left: nat)
    requires Placed(Crawler, v, rs, prev, left) && OnDisk(disk, v, rs, prev, left)
    ensures |Content(disk, v, rs, prev, left)| == Min(left, TotalSize(v, rs))
    decreases rs
  {
    hide Volume.Size, Volume.At;
    if rs != [] && left > 0 {
      ContentLength(disk, v, rs[1..], prev + rs[0].delta, left - Min(v.Size(rs[0].length), left));
    }
  }

  lemma {:induction false} PlacedForLess(disk: seq<Byte>, v: Volume, rs: seq<RunSpec>, prev: int, left: nat, more: nat)
    requires left <= more && Placed(Crawler, v, rs, prev, more) && OnDisk(disk, v, rs, prev, more)
    ensures Placed(Crawler, v, rs, prev, left) && OnDisk(disk, v, rs, prev, left)
    decreases rs
  {
    hide Volume.Size, Volume.At;
    if rs != [] && left > 0 {
      var size := v.Size(rs[0].length);
      PlacedForLess(disk, v, rs[1..], prev + rs[0].delta, left - Min(size, left), more - Min(size, more));
    }
  }

  lemma {:induction false} ContentStep(disk: seq<Byte>, v: Volume, rs: seq<RunSpec>, prev: int, left: nat)
    requires rs != [] && left > 0 && Placed(Crawler, v, rs, prev, left) && OnDisk(disk, v, rs, prev, left)
    ensures 0 <= prev + rs[0].delta < LCN_LIMIT
    ensures var from, n := v.At(prev + rs[0].delta), Min(v.Size(rs[0].length), left);
            && from + n <= |disk| && Placed(Crawler, v, rs[1..], prev + rs[0].delta, left - n)
            && OnDisk(disk, v, rs[1..], prev + rs[0].delta, left - n)
            && Content(disk, v, rs, prev, left) == disk[from..from + n] + Content(disk, v, rs[1..], prev + rs[0].delta, left - n)
  {
    hide Volume.Size, Volume.At;
  }

  /** Wanting fewer bytes gives a prefix: the content is the concatenation of the runs cut to length. */
  lemma {:induction false} ContentIsCut(disk: seq<Byte>, v: Volume, rs: seq<RunSpec>, prev: int, left: nat, more: nat)
    requires left <= more && Placed(Crawler, v, rs, prev, more) && OnDisk(disk, v, rs, prev, more)
    ensures Placed(Crawler, v, rs, prev, left) && OnDisk(disk, v, rs, prev, left)
    ensures Content(disk, v, rs, prev, left) <= Content(disk, v, rs, prev, more)
    decreases rs
  {
    hide Volume.Size, Volume.At, Program.Left, Content, OnDisk, Placed;
    PlacedForLess(disk, v, rs, prev, left, more);
    if rs == [] || left == 0 {
      ContentNone(disk, v, rs, prev, left);
    } else {
      ContentStep(disk, v, rs, prev, left);
      ContentStep(disk, v, rs, prev, more);
      var size, from, lcn := v.Size(rs[0].length), v.At(prev + rs[0].delta), prev + rs[0].delta;
      var n, m := Min(size, left), Min(size, more);
      ContentIsCut(disk, v, rs[1..], lcn, left - n, more - m);
      ContentNone(disk, v, rs[1..], lcn, left - n);
      JoinCut(disk, from, n, m, Content(disk, v, rs[1..], lcn, left - n), Content(disk, v, rs[1..], lcn, more - m));
    }
  }

  lemma {:induction false} JoinCut(disk: seq<Byte>, from: nat, n: nat, m: nat, a: seq<Byte>, b: seq<Byte>)
    requires n <= m && from + m <= |disk|
    requires (n == m && a <= b) || a == []
    ensures disk[from..from + n] + a <= disk[from..from + m] + b
  {
    if a == [] {
      assert disk[from..from + n] + a == disk[from..from + n];
      assert disk[from..from + m][..n] == disk[from..from + n];
    }
  }

  // ------------------------------------------------------------------ which byte is where

  /** First cluster of run `j`: the distances up to it, added up. */
  function Lcn(rs: seq<RunSpec>, prev: int, j: nat): int
    requires j < |rs|
  {
    if j == 0 then prev + rs[0].delta else Lcn(rs[1..], prev + rs[0].delta, j - 1)
  }

  /** Clusters of the runs before run `j`. */
  function ClustersBefore(rs: seq<RunSpec>, j: nat): nat
    requires j <= |rs|
  {
    if j == 0 then 0 else rs[0].length + ClustersBefore(rs[1..], j - 1)
  }

  /** Byte `k` of the stream is in run `j`. */
  predicate InRun(v: Volume, rs: seq<RunSpec>, j: nat, k: nat) {
    j < |rs| && ClustersBefore(rs, j) * v.cluster <= k < ClustersBefore(rs, j) * v.cluster + rs[j].length * v.cluster
  }

  /** Where it is on the disk. */
  function ByteAddress(v: Volume, rs: seq<RunSpec>, prev: int, j: nat, k: nat): int
    requires j < |rs|
  {
    Lcn(rs, prev, j) * v.cluster + v.offset + (k - ClustersBefore(rs, j) * v.cluster)
  }

  lemma {:induction false} RunAfter(v: Volume, rs: seq<RunSpec>, prev: int, j: nat, k: nat)
    requires 0 < j < |rs| && InRun(v, rs, j, k)
    ensures var n := v.Size(rs[0].length);
            && n <= k && InRun(v, rs[1..], j - 1, k - n)
            && ByteAddress(v, rs, prev, j, k) == ByteAddress(v, rs[1..], prev + rs[0].delta, j - 1, k - n)
  {
    var c := ClustersBefore(rs[1..], j - 1);
    assert (rs[0].length + c) * v.cluster == rs[0].length * v.cluster + c * v.cluster;
  }

  /** Every byte of the content that lies in a run is that run's byte on the disk. */
  lemma {:induction false} ContentByte(disk: seq<Byte>, v: Volume, rs: seq<RunSpec>, prev: int, left: nat, j: nat, k: nat)
    requires Placed(Crawler, v, rs, prev, left) && OnDisk(disk, v, rs, prev, left)
    requires j < |rs| && InRun(v, rs, j, k) && k < left
    ensures k < |Content(disk, v, rs, prev, left)| && 0 <= ByteAddress(v, rs, prev, j, k) < |disk|
    ensures Content(disk, v, rs, prev, left)[k] == disk[ByteAddress(v, rs, prev, j, k)]
    decreases rs
  {
    hide Content, OnDisk, Placed, InRun, ByteAddress, Volume.At, Volume.Size, Lcn, ClustersBefore;
    ContentStep(disk, v, rs, prev, left);
    var n := Min(v.Size(rs[0].length), left);
    if j > 0 {
      RunAfter(v, rs, prev, j, k);
      ContentByte(disk, v, rs[1..], prev + rs[0].delta, left - n, j - 1, k - n);
    } else {
      FirstRun(v, rs, prev, k);
    }
  }

  lemma FirstRun(v: Volume, rs: seq<RunSpec>, prev: int, k: nat)
    requires InRun(v, rs, 0, k) && 0 <= prev + rs[0].delta
    ensures k < v.Size(rs[0].length) && ByteAddress(v, rs, prev, 0, k) == v.At(prev + rs[0].delta) + k
  {
  }

  function RoundUp(n: nat): nat {
    (n + CHUNK - 1) / CHUNK * CHUNK
  }

  /** `n` bytes of the disk have been written at `position`. */
  ghost predicate Copied(was: seq<Byte>, now: seq<Byte>, position: nat, disk: seq<Byte>, from: nat, n: nat) {
    && position + n <= |was| && from + n <= |disk|
    && now == was[..position] + disk[from..from + n] + was[position + n..]
  }

  /** The inner loop: one run, cut to the bytes still wanted, copied piece by piece. The position
      moves on by whole pieces. */
  method CopyRun(disk: seq<Byte>, from: nat, runBytes: nat, stream: array<Byte>, position: nat, realSize: nat)
    returns (position': nat, left': nat)
    requires position + Min(runBytes, realSize) <= stream.Length && from + Min(runBytes, realSize) <= |disk| && realSize > 0
    modifies stream
    ensures left' == realSize - Min(runBytes, realSize) && position' == position + RoundUp(Min(runBytes, realSize))
    ensures Copied(old(stream[..]), stream[..], position, disk, from, Min(runBytes, realSize))
  {
    hide RoundUp, Copied;
    CopiedNone(stream[..], position, disk, from);
    assert RoundUp(0) == 0 by {
      RoundUpNone();
    }
    var run, at := runBytes, from;
    position', left' := position, realSize;
    ghost var n := Min(runBytes, realSize);
    ghost var done := 0;
    while run != 0
      invariant 0 <= done <= n && left' == realSize - done && at == from + done
      invariant if run == 0 then done == n else done % CHUNK == 0 && Min(run, left') == n - done > 0
      invariant position' == position + (if run == 0 then RoundUp(done) else done)
      invariant Copied(old(stream[..]), stream[..], position, disk, from, done)
      decreases run
    {
      run := Min(run, left');
      var piece := Min(run, CHUNK);
      ghost var before := stream[..];
      CopyPiece(disk, at, stream, position', piece);
      CopiedMore(old(stream[..]), before, stream[..], position, disk, from, done, piece);
      RoundUpStep(done, piece);
      done := done + piece;
      at := at + piece;
      position' := position' + CHUNK;
      left' := left' - piece;
      run := run - piece;
    }
  }

  lemma CopiedNone(was: seq<Byte>, position: nat, disk: seq<Byte>, from: nat)
    requires position <= |was| && from <= |disk|
    ensures Copied(was, was, position, disk, from, 0)
  {
  }

  /** Two pieces written one behind the other. */
  lemma {:induction false} CopiedMore(was: seq<Byte>, mid: seq<Byte>, now: seq<Byte>, position: nat, disk: seq<Byte>, from: nat, n: nat, more: nat)
    requires Copied(was, mid, position, disk, from, n) && Copied(mid, now, position + n, disk, from + n, more)
    requires position + n + more <= |was|
    ensures Copied(was, now, position, disk, from, n + more)
  {
    assert mid[..position + n] == was[..position] + disk[from..from + n];
    assert mid[position + n + more..] == was[position + n + more..];
    assert disk[from..from + n + more] == disk[from..from + n] + disk[from + n..from + n + more];
  }

  lemma RoundUpNone()
    ensures RoundUp(0) == 0
  {
  }

  lemma RoundUpStep(done: nat, piece: nat)
    requires done % CHUNK == 0 && 0 < piece <= CHUNK
    ensures RoundUp(done + piece) == done + CHUNK
    ensures piece == CHUNK ==> (done + piece) % CHUNK == 0
  {
  }

  /** fread into the buffer, then memcpy. */
  method CopyPiece(disk: seq<Byte>, at: nat, stream: array<Byte>, position: nat, n: nat)
    requires at + n <= |disk| && position + n <= stream.Length
    modifies stream
    ensures Copied(old(stream[..]), stream[..], position, disk, at, n)
  {
    forall k | 0 <= k < n {
      stream[position + k] := disk[at + k];
    }
  }

  lemma {:induction false} WholePieces(v: Volume, length: nat)
    requires v.cluster % CHUNK == 0
    ensures RoundUp(v.Size(length)) == v.Size(length)
  {
    var c := v.cluster / CHUNK;
    assert v.Size(length) == length * c * CHUNK by {
      assert v.cluster == c * CHUNK;
      assert length * (c * CHUNK) == length * c * CHUNK;
    }
  }

  /** ntfs_handle_non_resident_data_attribute with a stream: the runs cut to the real size. When
      they fall short of it, the rest of the buffer is left as it was allocated. */
  method AssembleStream(disk: seq<Byte>, data: seq<Byte>, offset: nat, v: Volume, realSize: nat, ghost rs: seq<RunSpec>)
    returns (stream: array<Byte>)
    requires AllReadable(rs) && Encodes(data, offset, rs) && v.cluster % CHUNK == 0
    requires Placed(Crawler, v, rs, 0, realSize) && OnDisk(disk, v, rs, 0, realSize)
    ensures fresh(stream) && stream.Length == realSize
    ensures Content(disk, v, rs, 0, realSize) <= stream[..]
    ensures forall j: nat, k: nat :: j < |rs| && InRun(v, rs, j, k) && k < realSize ==>
              0 <= ByteAddress(v, rs, 0, j, k) < |disk| && stream[k] == disk[ByteAddress(v, rs, 0, j, k)]
  {
    hide Times, RoundUp, EncodeRuns, RunSpec.Encodable, RunSpec.Readable, ParseRun, EncodeRun, Progress, Encodes, OnDisk, Copied,
         Content, Placed, InRun, ByteAddress;
    stream := new Byte[realSize];
    var at: nat, left: nat, prev, position := offset, realSize, 0, 0;
    ghost var whole, written, todo := Content(disk, v, rs, 0, realSize), [], rs;
    assert whole == written + whole;
    ParseStep(data, at, todo);
    ProgressStarts(stream[..], realSize);
    var p := ParseDataRun(data, at);
    while p.Run? && left != 0
      invariant AllReadable(todo) && Encodes(data, at, todo) && p == ParseRun(data, at)
      invariant todo == [] ==> p == End
      invariant todo != [] ==> p == Run(todo[0].length, todo[0].delta, at + |EncodeRun(todo[0])|)
      invariant Placed(Crawler, v, todo, prev, left) && OnDisk(disk, v, todo, prev, left)
      invariant whole == written + Content(disk, v, todo, prev, left)
      invariant Progress(stream[..], written, realSize, left, position)
      decreases |todo|
    {
      ContentStep(disk, v, todo, prev, left);
      var from, size := v.At(prev + p.lcn), v.Size(p.length);
      WholePieces(v, p.length);
      ghost var was, pos, wanted := stream[..], position, left;
      ProgressFits(was, written, realSize, left, position);
      position, left := CopyRun(disk, from, size, stream, position, left);
      NextRun(was, stream[..], written, disk, from, size, realSize, wanted, pos, position);
      assert whole == written + disk[from..from + Min(size, wanted)] + Content(disk, v, todo[1..], prev + p.lcn, left);
      written := written + disk[from..from + Min(size, wanted)];
      prev := prev + p.lcn;
      ParseStep(data, at, todo);
      at := p.next;
      todo := todo[1..];
      ParseStep(data, at, todo);
      p := ParseDataRun(data, at);
    }
    ContentNone(disk, v, todo, prev, left);
    ProgressEnds(stream[..], written, realSize, left, position);
    AssembledBytes(disk, v, rs, realSize, stream[..]);
  }

  lemma {:induction false} AssembledBytes(disk: seq<Byte>, v: Volume, rs: seq<RunSpec>, realSize: nat, stream: seq<Byte>)
    requires Placed(Crawler, v, rs, 0, realSize) && OnDisk(disk, v, rs, 0, realSize) && |stream| == realSize
    requires Content(disk, v, rs, 0, realSize) <= stream
    ensures forall j: nat, k: nat :: j < |rs| && InRun(v, rs, j, k) && k < realSize ==>
              0 <= ByteAddress(v, rs, 0, j, k) < |disk| && stream[k] == disk[ByteAddress(v, rs, 0, j, k)]
  {
    hide Content, OnDisk, Placed, InRun, ByteAddress;
    forall j: nat, k: nat | j < |rs| && InRun(v, rs, j, k) && k < realSize
      ensures 0 <= ByteAddress(v, rs, 0, j, k) < |disk| && stream[k] == disk[ByteAddress(v, rs, 0, j, k)]
    {
      ContentByte(disk, v, rs, 0, realSize, j, k);
    }
  }

  /** What was written is in place and, while bytes are wanted, the position is behind it. */
  ghost predicate Progress(stream: seq<Byte>, written: seq<Byte>, realSize: nat, left: nat, position: nat) {
    |stream| == realSize && |written| == realSize - left && written <= stream && (left > 0 ==> position == |written|)
  }

  lemma ProgressStarts(stream: seq<Byte>, realSize: nat)
    requires |stream| == realSize
    ensures Progress(stream, [], realSize, realSize, 0)
  {
  }

  lemma ProgressEnds(stream: seq<Byte>, written: seq<Byte>, realSize: nat, left: nat, position: nat)
    requires Progress(stream, written, realSize, left, position)
    ensures written <= stream
  {
  }

  lemma ProgressFits(stream: seq<Byte>, written: seq<Byte>, realSize: nat, left: nat, position: nat)
    requires Progress(stream, written, realSize, left, position) && left > 0
    ensures position + left == realSize == |stream|
  {
  }

  lemma {:induction false} NextRun(was: seq<Byte>, now: seq<Byte>, written: seq<Byte>, disk: seq<Byte>, from: nat, size: nat, realSize: nat,
                                   left: nat, position: nat, position': nat)
    requires Progress(was, written, realSize, left, position) && left > 0 && RoundUp(size) == size
    requires Copied(was, now, position, disk, from, Min(size, left))
    requires position' == position + RoundUp(Min(size, left))
    ensures Progress(now, written + disk[from..from + Min(size, left)], realSize, left - Min(size, left), position')
  {
    hide RoundUp;
  }

  lemma ContentNone(disk: seq<Byte>, v: Volume, rs: seq<RunSpec>, prev: int, left: nat)
    requires Placed(Crawler, v, rs, prev, left) && OnDisk(disk, v, rs, prev, left)
    ensures rs == [] || left == 0 ==> Content(disk, v, rs, prev, left) == []
  {
  }

  // ------------------------------------------------------------------ sector lists

  /** One entry per eight sectors of a run, from its first sector. */
  function RunSectors(v: Volume, lcn: nat, length: nat): seq<int> {
    var first := v.At(lcn) / SECTOR_SIZE;
    seq((v.Size(length) / SECTOR_SIZE + 7) / 8, i => first + 8 * i)
  }

  /** A 32-bit signed store. */
  function Int32(x: int): int {
    var w := x % TWO32;
    if w >= 0x8000_0000 then w - TWO32 else w
  }

  /** The number in its range that agrees in the low 32 bits: the sector itself if and only if it is
      below 2^31. */
  lemma Int32Is(x: nat)
    ensures -0x8000_0000 <= Int32(x) < 0x8000_0000 && (x - Int32(x)) % TWO32 == 0
    ensures Int32(x) == x <==> x < 0x8000_0000
  {
  }

  function Int32s(s: seq<int>): seq<int> {
    seq(|s|, i requires 0 <= i < |s| => Int32(s[i]))
  }

  /** The crawler's list: runs are taken until the size, cut at each run, is used up. */
  ghost function CrawlList(v: Volume, rs: seq<RunSpec>, prev: int, left: nat): seq<int>
    requires Placed(Crawler, v, rs, prev, left)
    decreases rs
  {
    if rs == [] || left == 0 then [] else
    var lcn, size := prev + rs[0].delta, v.Size(rs[0].length);
    Int32s(RunSectors(v, lcn, rs[0].length)) + CrawlList(v, rs[1..], lcn, Crawler.Left(left, size))
  }

  /** The inferencer's list: the size is reduced by whole runs in 64-bit arithmetic. */
  ghost function InferList(v: Volume, rs: seq<RunSpec>, prev: int, left: nat): seq<int>
    requires Placed(Inferencer, v, rs, prev, left)
    decreases rs
  {
    if rs == [] || left == 0 then [] else
    var lcn, size := prev + rs[0].delta, v.Size(rs[0].length);
    RunSectors(v, lcn, rs[0].length) + InferList(v, rs[1..], lcn, Inferencer.Left(left, size))
  }

  /** Entries of the runs before run `j`: one per 4096 bytes or part of it. */
  function EntriesBefore(v: Volume, rs: seq<RunSpec>, j: nat): nat
    requires j <= |rs|
  {
    if j == 0 then 0 else Entries(v, rs[0]) + EntriesBefore(v, rs[1..], j - 1)
  }

  function Entries(v: Volume, r: RunSpec): nat {
    (r.length * v.cluster / SECTOR_SIZE + 7) / 8
  }

  /** Run `j` starts before the end of a file of this size. */
  predicate StartsBefore(v: Volume, rs: seq<RunSpec>, j: nat, size: nat) {
    j < |rs| && ClustersBefore(rs, j) * v.cluster < size
  }

  /** Sector `8 * i` of run `j`. */
  function RunSector(v: Volume, rs: seq<RunSpec>, prev: int, j: nat, i: nat): int
    requires j < |rs|
  {
    (Lcn(rs, prev, j) * v.cluster + v.offset) / SECTOR_SIZE + 8 * i
  }

  lemma {:induction false} LaterRun(v: Volume, rs: seq<RunSpec>, prev: int, j: nat, i: nat, size: nat)
    requires 0 < j < |rs| && StartsBefore(v, rs, j, size)
    ensures v.Size(rs[0].length) < size && StartsBefore(v, rs[1..], j - 1, size - v.Size(rs[0].length))
    ensures RunSector(v, rs, prev, j, i) == RunSector(v, rs[1..], prev + rs[0].delta, j - 1, i)
    ensures EntriesBefore(v, rs, j) == Entries(v, rs[0]) + EntriesBefore(v, rs[1..], j - 1)
  {
    var c := ClustersBefore(rs[1..], j - 1);
    assert (rs[0].length + c) * v.cluster == rs[0].length * v.cluster + c * v.cluster;
  }

  lemma FirstEntries(v: Volume, rs: seq<RunSpec>, prev: int)
    requires rs != [] && 0 <= prev + rs[0].delta
    ensures EntriesBefore(v, rs, 0) == 0
    ensures var list := RunSectors(v, prev + rs[0].delta, rs[0].length);
            |list| == Entries(v, rs[0]) && forall i :: 0 <= i < |list| ==> list[i] == RunSector(v, rs, prev, 0, i)
  {
  }

  lemma StoredEntries(list: seq<int>)
    ensures |Int32s(list)| == |list| && forall i :: 0 <= i < |list| ==> Int32s(list)[i] == Int32(list[i])
  {
  }

  lemma CutAt(left: nat, size: nat)
    requires size < left < TWO64
    ensures Crawler.Left(left, size) == left - size == Inferencer.Left(left, size)
  {
  }

  /** Entry `i` of run `j`'s part of either list is the sector 4096 * i bytes into the run, for every run
      that starts before the end of the file; the crawler's as a 32-bit number. */
  lemma {:induction false} CrawlEntry(v: Volume, rs: seq<RunSpec>, prev: int, left: nat, j: nat, i: nat)
    requires left < TWO64
    requires Placed(Crawler, v, rs, prev, left) && j < |rs| && StartsBefore(v, rs, j, left) && i < Entries(v, rs[j])
    ensures EntriesBefore(v, rs, j) + i < |CrawlList(v, rs, prev, left)|
    ensures CrawlList(v, rs, prev, left)[EntriesBefore(v, rs, j) + i] == Int32(RunSector(v, rs, prev, j, i))
    decreases rs
  {
    hide Int32, Int32s, CrawlList, Placed, Volume.At, Volume.Size, RunSectors, RunSector, Entries, Program.Left, StartsBefore,
         EntriesBefore;
    SomeLeft(v, rs, j, left);
    CrawlStep(v, rs, prev, left);
    FirstEntries(v, rs, prev);
    StoredEntries(RunSectors(v, prev + rs[0].delta, rs[0].length));
    var first := Int32s(RunSectors(v, prev + rs[0].delta, rs[0].length));
    var rest := CrawlList(v, rs[1..], prev + rs[0].delta, Crawler.Left(left, v.Size(rs[0].length)));
    if j > 0 {
      LaterRun(v, rs, prev, j, i, left);
      CutAt(left, v.Size(rs[0].length));
      CrawlEntry(v, rs[1..], prev + rs[0].delta, Crawler.Left(left, v.Size(rs[0].length)), j - 1, i);
      Joined(CrawlList(v, rs, prev, left), first, rest, EntriesBefore(v, rs[1..], j - 1) + i);
    } else {
      assert CrawlList(v, rs, prev, left)[i] == first[i];
    }
  }

  lemma Joined(whole: seq<int>, a: seq<int>, b: seq<int>, n: nat)
    requires whole == a + b && n < |b|
    ensures |a| + n < |whole| && whole[|a| + n] == b[n]
  {
  }

  lemma SomeLeft(v: Volume, rs: seq<RunSpec>, j: nat, left: nat)
    requires StartsBefore(v, rs, j, left)
    ensures left > 0 && j < |rs|
  {
  }

  lemma {:induction false} InferEntry(v: Volume, rs: seq<RunSpec>, prev: int, left: nat, j: nat, i: nat)
    requires left < TWO64
    requires Placed(Inferencer, v, rs, prev, left) && j < |rs| && StartsBefore(v, rs, j, left) && i < Entries(v, rs[j])
    ensures EntriesBefore(v, rs, j) + i < |InferList(v, rs, prev, left)|
    ensures InferList(v, rs, prev, left)[EntriesBefore(v, rs, j) + i] == RunSector(v, rs, prev, j, i)
    decreases rs
  {
    hide InferList, Placed, Volume.At, Volume.Size, RunSectors, RunSector, Entries, Program.Left, StartsBefore, EntriesBefore;
    SomeLeft(v, rs, j, left);
    InferStep(v, rs, prev, left);
    FirstEntries(v, rs, prev);
    var first := RunSectors(v, prev + rs[0].delta, rs[0].length);
    var rest := InferList(v, rs[1..], prev + rs[0].delta, Inferencer.Left(left, v.Size(rs[0].length)));
    if j > 0 {
      LaterRun(v, rs, prev, j, i, left);
      CutAt(left, v.Size(rs[0].length));
      InferEntry(v, rs[1..], prev + rs[0].delta, Inferencer.Left(left, v.Size(rs[0].length)), j - 1, i);
      Joined(InferList(v, rs, prev, left), first, rest, EntriesBefore(v, rs[1..], j - 1) + i);
    } else {
      assert InferList(v, rs, prev, left)[i] == first[i];
    }
  }

  /** On a partition that starts on a sector, with clusters of whole sectors, the entry times 512 is the
      run's address plus 4096 * i. */
  lemma {:induction false} EntryIsAddress(v: Volume, rs: seq<RunSpec>, prev: int, j: nat, i: nat)
    requires v.offset % SECTOR_SIZE == 0 && v.cluster % SECTOR_SIZE == 0 && j < |rs|
    ensures RunSector(v, rs, prev, j, i) * SECTOR_SIZE == Lcn(rs, prev, j) * v.cluster + v.offset + 4096 * i
  {
    var c, lcn := v.cluster / SECTOR_SIZE, Lcn(rs, prev, j);
    assert lcn * v.cluster == lcn * c * SECTOR_SIZE by {
      assert v.cluster == c * SECTOR_SIZE;
      assert lcn * (c * SECTOR_SIZE) == lcn * c * SECTOR_SIZE;
    }
  }

  /** The loop over one run's sectors, the same in both programs. */
  method ListRun(v: Volume, lcn: nat, length: nat) returns (sectors: seq<int>)
    ensures sectors == RunSectors(v, lcn, length)
  {
    hide Times;
    sectors := [];
    var i := 0;
    var count := v.Size(length) / SECTOR_SIZE;
    while i < count
      invariant i % 8 == 0 && |sectors| == i / 8 && i < count + 8
      invariant forall k :: 0 <= k < |sectors| ==> sectors[k] == v.At(lcn) / SECTOR_SIZE + 8 * k
    {
      sectors := sectors + [v.At(lcn) / SECTOR_SIZE + i];
      i := i + 8;
    }
  }

  /** ntfs_handle_non_resident_data_attribute, saving sectors. */
  method CrawlSectors(data: seq<Byte>, offset: nat, v: Volume, realSize: nat, ghost rs: seq<RunSpec>)
    returns (sectors: seq<int>)
    requires AllReadable(rs) && Encodes(data, offset, rs) && Placed(Crawler, v, rs, 0, realSize)
    ensures sectors == CrawlList(v, rs, 0, realSize)
  {
    hide Times, EncodeRuns, RunSpec.Encodable, RunSpec.Readable, ParseRun, EncodeRun, RunSectors, Int32s, CrawlList, Placed, Program.Left,
         Encodes, Volume.At, Volume.Size;
    var at: nat, left: nat, prev := offset, realSize, 0;
    sectors := [];
    ghost var todo := rs;
    ParseStep(data, at, todo);
    var p := ParseDataRun(data, at);
    while p.Run? && left != 0
      invariant AllReadable(todo) && Encodes(data, at, todo) && p == ParseRun(data, at) && Placed(Crawler, v, todo, prev, left)
      invariant todo == [] ==> p == End
      invariant todo != [] ==> p == Run(todo[0].length, todo[0].delta, at + |EncodeRun(todo[0])|)
      invariant CrawlList(v, rs, 0, realSize) == sectors + CrawlList(v, todo, prev, left)
      decreases |todo|
    {
      CrawlStep(v, todo, prev, left);
      var run := ListRun(v, prev + p.lcn, p.length);
      sectors := sectors + Int32s(run);
      left := Crawler.Left(left, v.Size(p.length));
      prev := prev + p.lcn;
      ParseStep(data, at, todo);
      at := p.next;
      todo := todo[1..];
      ParseStep(data, at, todo);
      p := ParseDataRun(data, at);
    }
    ListEnds(v, todo, prev, left);
  }

  /** The run loop of __diff_data_ntfs. */
  method InferSectors(data: seq<Byte>, offset: nat, v: Volume, realSize: nat, ghost rs: seq<RunSpec>)
    returns (sectors: seq<int>)
    requires AllReadable(rs) && Encodes(data, offset, rs) && Placed(Inferencer, v, rs, 0, realSize)
    ensures sectors == InferList(v, rs, 0, realSize)
  {
    hide Times, EncodeRuns, RunSpec.Encodable, RunSpec.Readable, ParseRun, EncodeRun, RunSectors, InferList, Placed, Program.Left,
         Encodes, Volume.At, Volume.Size;
    var at: nat, left: nat, prev := offset, realSize, 0;
    sectors := [];
    ghost var todo := rs;
    ParseStep(data, at, todo);
    var p := ParseDataRun(data, at);
    while p.Run? && left > 0
      invariant AllReadable(todo) && Encodes(data, at, todo) && p == ParseRun(data, at) && Placed(Inferencer, v, todo, prev, left)
      invariant todo == [] ==> p == End
      invariant todo != [] ==> p == Run(todo[0].length, todo[0].delta, at + |EncodeRun(todo[0])|)
      invariant InferList(v, rs, 0, realSize) == sectors + InferList(v, todo, prev, left)
      decreases |todo|
    {
      InferStep(v, todo, prev, left);
      var run := ListRun(v, prev + p.lcn, p.length);
      sectors := sectors + run;
      left := Inferencer.Left(left, v.Size(p.length));
      prev := prev + p.lcn;
      ParseStep(data, at, todo);
      at := p.next;
      todo := todo[1..];
      ParseStep(data, at, todo);
      p := ParseDataRun(data, at);
    }
    ListEnds(v, todo, prev, left);
  }

  /** Runs the inferencer accepts: where it takes them they are placed, not empty and below 2^64
      bytes, and their sectors fit 32 bits. */
  ghost predicate Ordinary(v: Volume, rs: seq<RunSpec>, prev: int, left: nat)
    decreases rs
  {
    rs != [] && left > 0 ==>
      && 0 <= prev + rs[0].delta < LCN_LIMIT
      && SECTOR_SIZE <= v.Size(rs[0].length) < TWO64
      && v.At(prev + rs[0].delta) + v.Size(rs[0].length) <= 0x8000_0000 * SECTOR_SIZE
      && Ordinary(v, rs[1..], prev + rs[0].delta, Inferencer.Left(left, v.Size(rs[0].length)))
  }

  /** Where the inferencer takes a run, the crawler takes it or has stopped before. */
  lemma {:induction false} OrdinaryIsPlaced(v: Volume, rs: seq<RunSpec>, prev: int, left: nat)
    requires Ordinary(v, rs, prev, left) && left < TWO64
    ensures Placed(Inferencer, v, rs, prev, left) && Placed(Crawler, v, rs, prev, left)
    decreases rs
  {
    if rs != [] && left > 0 {
      hide Volume.At, Volume.Size;
      var size := v.Size(rs[0].length);
      OrdinaryIsPlaced(v, rs[1..], prev + rs[0].delta, Inferencer.Left(left, size));
    }
  }

  /** Some run before the last begins before the end of the file and ends behind it. */
  ghost predicate Straddles(v: Volume, rs: seq<RunSpec>, left: nat) {
    |rs| > 1 && left > 0 &&
    (v.Size(rs[0].length) > left || Straddles(v, rs[1..], left - Min(v.Size(rs[0].length), left)))
  }

  lemma {:induction false} SectorsFit(v: Volume, lcn: nat, length: nat)
    requires v.At(lcn) + v.Size(length) <= 0x8000_0000 * SECTOR_SIZE
    ensures Int32s(RunSectors(v, lcn, length)) == RunSectors(v, lcn, length)
  {
    hide Times;
  }

  lemma {:induction false} SomeSectors(v: Volume, lcn: nat, length: nat)
    requires v.Size(length) >= SECTOR_SIZE
    ensures RunSectors(v, lcn, length) != []
  {
    hide Times;
  }

  /** Crawler and inferencer list the same sectors if and only if no run but the last straddles
      the end of the file. */
  lemma {:induction false} SameSectorsIff(v: Volume, rs: seq<RunSpec>, prev: int, left: nat)
    requires Ordinary(v, rs, prev, left) && left < TWO64
    ensures Placed(Inferencer, v, rs, prev, left) && Placed(Crawler, v, rs, prev, left)
    ensures CrawlList(v, rs, prev, left) == InferList(v, rs, prev, left) <==> !Straddles(v, rs, left)
    decreases |rs|
  {
    OrdinaryIsPlaced(v, rs, prev, left);
    if rs != [] && left > 0 {
      hide CrawlList, InferList, RunSectors, Int32s, Volume.At, Volume.Size, Placed, Program.Left;
      var lcn, size, rest := prev + rs[0].delta, v.Size(rs[0].length), rs[1..];
      var head := RunSectors(v, lcn, rs[0].length);
      SectorsFit(v, lcn, rs[0].length);
      CrawlStep(v, rs, prev, left);
      InferStep(v, rs, prev, left);
      LeftIs(left, size);
      SameSectorsIff(v, rest, lcn, Inferencer.Left(left, size));
      if size <= left {
        SameTail(head, CrawlList(v, rest, lcn, left - size), InferList(v, rest, lcn, left - size));
      } else {
        ListEnds(v, rest, lcn, 0);
        ListsEmpty(v, rest, lcn, Inferencer.Left(left, size));
        SameTail(head, [], InferList(v, rest, lcn, Inferencer.Left(left, size)));
      }
    }
  }

  lemma LeftIs(left: nat, size: nat)
    requires left < TWO64 && size < TWO64
    ensures Crawler.Left(left, size) == left - Min(size, left)
    ensures Inferencer.Left(left, size) == (if size <= left then left - size else left + TWO64 - size) < TWO64
  {
  }

  lemma {:induction false} CrawlStep(v: Volume, rs: seq<RunSpec>, prev: int, left: nat)
    requires rs != [] && left > 0 && Placed(Crawler, v, rs, prev, left)
    ensures var lcn, next := prev + rs[0].delta, Crawler.Left(left, v.Size(rs[0].length));
            && 0 <= lcn && Placed(Crawler, v, rs[1..], lcn, next)
            && CrawlList(v, rs, prev, left) == Int32s(RunSectors(v, lcn, rs[0].length)) + CrawlList(v, rs[1..], lcn, next)
  {
    hide RunSectors, Int32s, Volume.Size, Volume.At, Program.Left;
  }

  lemma {:induction false} InferStep(v: Volume, rs: seq<RunSpec>, prev: int, left: nat)
    requires rs != [] && left > 0 && Placed(Inferencer, v, rs, prev, left)
    ensures var lcn, next := prev + rs[0].delta, Inferencer.Left(left, v.Size(rs[0].length));
            && 0 <= lcn && Placed(Inferencer, v, rs[1..], lcn, next)
            && InferList(v, rs, prev, left) == RunSectors(v, lcn, rs[0].length) + InferList(v, rs[1..], lcn, next)
  {
    hide RunSectors, Int32s, Volume.Size, Volume.At, Program.Left;
  }

  lemma ListEnds(v: Volume, rs: seq<RunSpec>, prev: int, left: nat)
    requires rs == [] || left == 0
    ensures Placed(Crawler, v, rs, prev, left) && CrawlList(v, rs, prev, left) == []
    ensures Placed(Inferencer, v, rs, prev, left) && InferList(v, rs, prev, left) == []
  {
  }

  lemma {:induction false} ListsEmpty(v: Volume, rs: seq<RunSpec>, prev: int, left: nat)
    requires Ordinary(v, rs, prev, left) && Placed(Inferencer, v, rs, prev, left) && left > 0
    ensures InferList(v, rs, prev, left) == [] <==> rs == []
  {
    if rs != [] {
      SomeSectors(v, prev + rs[0].delta, rs[0].length);
    }
  }

  lemma {:induction false} SameTail(head: seq<int>, a: seq<int>, b: seq<int>)
    ensures head + a == head + b <==> a == b
  {
    if head + a == head + b {
      assert (head + a)[|head|..] == a && (head + b)[|head|..] == b;
    }
  }

  /** A file of one cluster whose first run has two: the second run, behind the end of the file, is
      in the inferencer's list and not in the crawler's. */
  lemma {:induction false} StraddleExample()
    ensures var v, rs := Volume(4096, 0), [RunSpec(1, 1, 2, 10), RunSpec(1, 1, 1, 10)];
            && Ordinary(v, rs, 0, 4096) && Straddles(v, rs, 4096)
            && Placed(Crawler, v, rs, 0, 4096) && Placed(Inferencer, v, rs, 0, 4096)
            && CrawlList(v, rs, 0, 4096) == [80, 88] && InferList(v, rs, 0, 4096) == [80, 88, 160]
  {
    var v, rs := Volume(4096, 0), [RunSpec(1, 1, 2, 10), RunSpec(1, 1, 1, 10)];
    assert rs[1..] == [rs[1]] && rs[1..][1..] == [];
    assert v.At(10) == 40960 && v.At(20) == 81920 && v.Size(2) == 8192 && v.Size(1) == 4096;
    assert RunSectors(v, 10, 2) == [80, 88] && RunSectors(v, 20, 1) == [160];
    SectorsFit(v, 10, 2);
    hide Times, RunSectors, Int32s;
    OrdinaryIsPlaced(v, rs, 0, 4096);
    CrawlStep(v, rs, 0, 4096);
    InferStep(v, rs, 0, 4096);
    LeftIs(4096, 8192);
    ListEnds(v, rs[1..], 10, 0);
    InferStep(v, rs[1..], 10, 4096 + TWO64 - 8192);
    ListEnds(v, rs[1..][1..], 20, Inferencer.Left(4096 + TWO64 - 8192, 4096));
  }
}
