/**
 The NTFS fixup (ntfs.c). Before a record is written, the last two bytes of each of its sectors
 are saved in the update sequence and replaced by the sequence number; ntfs_fixup_data checks
 the number and puts the bytes back, in place.
 */
module NtfsFixup {
  import opened Bytes

  const TRAILER: nat := 510

  /** Byte `i` belongs to the trailer of one of the first `n` sectors. */
  predicate InTrailer(i: nat, n: nat) {
    i / SECTOR_SIZE < n && i % SECTOR_SIZE >= TRAILER
  }

  /** The stamping: the sequence number in the trailers of the first `n` sectors. */
  function Stamped(record: seq<Byte>, number: nat, n: nat): (r: seq<Byte>)
    requires number < 0x1_0000
    ensures |r| == |record|
  {
    seq(|record|, i requires 0 <= i < |record| =>
      if !InTrailer(i, n) then record[i] else if i % SECTOR_SIZE == TRAILER then number % 256 else number / 256)
  }

  /** The update sequence the stamping leaves. */
  function Saved(record: seq<Byte>, n: nat): (r: seq<Byte>)
    requires SECTOR_SIZE * n <= |record|
    ensures |r| == 2 * n
  {
    seq(2 * n, i requires 0 <= i < 2 * n => record[SECTOR_SIZE * (i / 2) + TRAILER + i % 2])
  }

  /** The trailers of the first `n` sectors taken from the update sequence. */
  function Restored(data: seq<Byte>, saved: seq<Byte>, n: nat): (r: seq<Byte>)
    requires 2 * n <= |saved|
    ensures |r| == |data|
  {
    seq(|data|, i requires 0 <= i < |data| =>
      if InTrailer(i, n) then saved[2 * (i / SECTOR_SIZE) + i % SECTOR_SIZE - TRAILER] else data[i])
  }

  function Word(lo: Byte, hi: Byte): nat {
    lo as int + 256 * hi as int
  }

  /** The number in the trailer of sector `j`. */
  function Trailer(data: seq<Byte>, j: nat): nat
    requires SECTOR_SIZE * (j + 1) <= |data|
  {
    Word(data[SECTOR_SIZE * j + TRAILER], data[SECTOR_SIZE * j + TRAILER + 1])
  }

  /** Sectors the fixup covers: those of the record that have an entry. */
  function CoveredSectors(len: nat, saved: seq<Byte>): nat {
    Min(len / SECTOR_SIZE, |saved| / 2)
  }

  /** ntfs_fixup_data. It fails exactly when a covered sector does not carry the sequence number,
      changes nothing but covered trailers, and otherwise restores them all. */
  method FixupData(data: array<Byte>, len: nat, number: nat, saved: seq<Byte>) returns (ok: bool)
    requires len <= data.Length && len % SECTOR_SIZE == 0 && |saved| % 2 == 0
    modifies data
    ensures var n := CoveredSectors(len, saved);
            && (ok <==> forall j :: 0 <= j < n ==> Trailer(old(data[..]), j) == number)
            && (ok ==> data[..] == Restored(old(data[..]), saved, n))
            && (forall i :: 0 <= i < data.Length && !InTrailer(i, n) ==> data[i] == old(data[i]))
  {
    ghost var was := data[..];
    ghost var n := CoveredSectors(len, saved);
    ghost var j := 0;
    var at, k := TRAILER, 0;
    while at < len
      invariant 0 <= j <= n && at == SECTOR_SIZE * j + TRAILER && k == 2 * j
      invariant forall i :: 0 <= i < j ==> Trailer(was, i) == number
      invariant data[..] == Restored(was, saved, j)
      decreases len - at
    {
      if k < |saved| {
        assert data[..][at] == was[at] && data[..][at + 1] == was[at + 1];
        if Word(data[at], data[at + 1]) != number {
          assert Trailer(was, j) != number;
          return false;
        }
        data[at] := saved[k];
        data[at + 1] := saved[k + 1];
        k := k + 2;
        RestoredNext(was, saved, j, data[..]);
        j := j + 1;
      } else {
        break;
      }
      at := at + SECTOR_SIZE;
    }
    return true;
  }

  lemma {:induction false} RestoredNext(was: seq<Byte>, saved: seq<Byte>, j: nat, now: seq<Byte>)
    requires SECTOR_SIZE * (j + 1) <= |was| == |now| && 2 * (j + 1) <= |saved|
    requires now == Restored(was, saved, j)[SECTOR_SIZE * j + TRAILER := saved[2 * j]][SECTOR_SIZE * j + TRAILER + 1 := saved[2 * j + 1]]
    ensures now == Restored(was, saved, j + 1)
  {
    var next := Restored(was, saved, j + 1);
    forall i | 0 <= i < |now| ensures now[i] == next[i] {
      if i == SECTOR_SIZE * j + TRAILER || i == SECTOR_SIZE * j + TRAILER + 1 {
        assert i / SECTOR_SIZE == j && InTrailer(i, j + 1);
      } else {
        assert InTrailer(i, j) == InTrailer(i, j + 1);
      }
    }
  }

  /** The fixup accepts what the stamping writes, and undoes it. */
  lemma {:induction false} FixupUndoesStamping(record: seq<Byte>, number: nat, n: nat)
    requires SECTOR_SIZE * n <= |record| && number < 0x1_0000
    ensures forall j :: 0 <= j < n ==> Trailer(Stamped(record, number, n), j) == number
    ensures Restored(Stamped(record, number, n), Saved(record, n), n) == record
  {
    var stamped, saved := Stamped(record, number, n), Saved(record, n);
    forall j | 0 <= j < n ensures Trailer(stamped, j) == number {
      assert InTrailer(SECTOR_SIZE * j + TRAILER, n) && InTrailer(SECTOR_SIZE * j + TRAILER + 1, n);
      assert stamped[SECTOR_SIZE * j + TRAILER] == number % 256 && stamped[SECTOR_SIZE * j + TRAILER + 1] == number / 256;
    }
    var r := Restored(stamped, saved, n);
    forall i | 0 <= i < |record| ensures r[i] == record[i] {
      if InTrailer(i, n) {
        var k := 2 * (i / SECTOR_SIZE) + i % SECTOR_SIZE - TRAILER;
        assert k / 2 == i / SECTOR_SIZE && k % 2 == i % SECTOR_SIZE - TRAILER;
        assert SECTOR_SIZE * (k / 2) + TRAILER + k % 2 == i;
      }
    }
  }

  /** A record written through the stamping and read through the fixup comes back whole. */
  method WriteAndFixup(record: seq<Byte>, number: nat) returns (ok: bool, data: array<Byte>)
    requires |record| % SECTOR_SIZE == 0 && number < 0x1_0000
    ensures ok && fresh(data) && data[..] == record
  {
    var n := |record| / SECTOR_SIZE;
    FixupUndoesStamping(record, number, n);
    var stamped := Stamped(record, number, n);
    data := new Byte[|record|](i requires 0 <= i < |record| => stamped[i]);
    assert data[..] == stamped;
    ok := FixupData(data, |record|, number, Saved(record, n));
  }
}
