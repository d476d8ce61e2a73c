/**
  kernel/streamer.c: byte streams over a disk of 512-byte sectors.
 */
module DiskStream {
  import opened Machine

  const SECTOR_SIZE: int := 512
  const INT_MAX: int := 0x7FFF_FFFF

  newtype u8 = x: int | 0 <= x < 256

  /** What `disk_read_block` finds at each sector number. */
  type Sector = s: seq<u8> | |s| == 512 witness seq(512, _ => 0)
  type Disk = nat -> Sector

  /** The disk as one flat sequence of bytes. */
  function ByteAt(disk: Disk, pos: nat): u8 {
    disk(pos / 512)[pos % 512]
  }

  function Slice(disk: Disk, pos: nat, n: nat): (bytes: seq<u8>)
    ensures |bytes| == n
  {
    seq(n, k requires 0 <= k < n => ByteAt(disk, pos + k))
  }

  /** Adjacent slices join. */
  lemma SliceConcat(disk: Disk, pos: nat, m: nat, n: nat)
    ensures Slice(disk, pos, m) + Slice(disk, pos + m, n) == Slice(disk, pos, m + n)
  {
  }

  /** A sector holds the flat bytes of its own range. */
  lemma SectorHoldsSlice(disk: Disk, pos: nat, n: nat)
    requires pos % 512 + n <= 512
    ensures disk(pos / 512)[pos % 512..pos % 512 + n] == Slice(disk, pos, n)
  {
    var sector, offset := disk(pos / 512), pos % 512;
    forall k | 0 <= k < n ensures sector[offset..offset + n][k] == Slice(disk, pos, n)[k] {
      SameSector(pos, k);
      assert sector[offset..offset + n][k] == sector[offset + k] == ByteAt(disk, pos + k);
    }
  }

  lemma SameSector(pos: nat, k: nat)
    requires pos % 512 + k < 512
    ensures (pos + k) / 512 == pos / 512 && (pos + k) % 512 == pos % 512 + k
  {
    var q, r := pos / 512, pos % 512;
    assert pos + k == 512 * q + (r + k);
  }

  /** The buffer with n bytes at `at` replaced. */
  function Spliced(buf: seq<u8>, at: nat, bytes: seq<u8>): (r: seq<u8>)
    requires at + |bytes| <= |buf|
    ensures |r| == |buf|
  {
    buf[..at] + bytes + buf[at + |bytes|..]
  }

  lemma SplicedTwice(buf: seq<u8>, at: nat, a: seq<u8>, b: seq<u8>)
    requires at + |a| + |b| <= |buf|
    ensures Spliced(Spliced(buf, at, a), at + |a|, b) == Spliced(buf, at, a + b)
  {
  }

  lemma CopiedIsSpliced(before: seq<u8>, after: seq<u8>, at: nat, bytes: seq<u8>)
    requires |after| == |before| && at + |bytes| <= |before|
    requires forall k :: 0 <= k < |before| ==> after[k] == if at <= k < at + |bytes| then bytes[k - at] else before[k]
    ensures after == Spliced(before, at, bytes)
  {
  }

  class Stream {
    var pos: int
    const disk: Disk

    constructor (disk: Disk)
      ensures this.disk == disk && pos == 0
    {
      this.disk := disk;
      pos := 0;
    }

    /** `diskstream_seek`. */
    static method Seek(stream: Stream?, newPos: int) returns (res: i32)
      modifies stream
      ensures res == if stream == null then EINVAGS else OK
      ensures stream != null ==> stream.pos == newPos
    {
      if stream == null {
        return EINVAGS;
      }
      stream.pos := newPos;
      res := OK;
    }

    /** `diskstream_read` into `buf` from index `at`, one sector buffer at a time: exactly the flat slice at the
        stream's position, or nothing. `heapOk` says whether the allocator can supply the sector buffer. */
    static method Read(stream: Stream?, buf: array?<u8>, at: nat, total: int, heapOk: bool) returns (res: i32)
      requires buf != null ==> at <= buf.Length && at + total <= buf.Length
      requires stream != null && buf != null && total > 0 && heapOk ==> 0 <= stream.pos && stream.pos + total <= INT_MAX
      modifies stream, buf
      ensures res == if stream == null || buf == null || total < 0 then EINVAGS else if !heapOk then ENOMEM else OK
      ensures res == OK ==> stream.pos == old(stream.pos) + total
      ensures res == OK && total > 0 ==>
        0 <= old(stream.pos) && buf[..] == Spliced(old(buf[..]), at, Slice(stream.disk, old(stream.pos), total))
      ensures res != OK || total == 0 ==>
        (stream != null ==> stream.pos == old(stream.pos)) && (buf != null ==> buf[..] == old(buf[..]))
    {
      hide Spliced, Slice, ByteAt;
      res := OK;
      if stream == null || buf == null || total < 0 {
        return EINVAGS;
      }
      if !heapOk {
        return ENOMEM;
      }
      var remain, o := total, at;
      ghost var before := buf[..];
      ghost var start: nat := if stream.pos >= 0 then stream.pos else 0;
      SpliceNothing(before, at, stream.disk, start);
      while remain > 0
        invariant 0 <= remain <= total && o == at + (total - remain)
        invariant if total > 0 then stream.pos == start + (total - remain) else stream.pos == old(stream.pos)
        invariant buf[..] == Spliced(before, at, Slice(stream.disk, start, total - remain))
      {
        var lba := stream.pos / SECTOR_SIZE;
        var offset := stream.pos % SECTOR_SIZE;
        var readSize := if SECTOR_SIZE - offset < remain then SECTOR_SIZE - offset else remain;
        var sector := stream.disk(lba);
        ghost var soFar := buf[..];
        SectorHoldsSlice(stream.disk, stream.pos, readSize);
        forall k | 0 <= k < readSize {
          buf[o + k] := sector[offset + k];
        }
        CopiedIsSpliced(soFar, buf[..], o, sector[offset..offset + readSize]);
        SplicedTwice(before, at, Slice(stream.disk, start, total - remain), Slice(stream.disk, stream.pos, readSize));
        SliceConcat(stream.disk, start, total - remain, readSize);
        o := o + readSize;
        stream.pos := stream.pos + readSize;
        remain := remain - readSize;
      }
    }

    /** Reading a bytes and then b bytes is reading a + b bytes. */
    static method ReadTwice(stream: Stream, buf: array<u8>, at: nat, a: nat, b: nat)
      requires at + a + b <= buf.Length && 0 <= stream.pos && stream.pos + a + b <= INT_MAX
      modifies stream, buf
      ensures stream.pos == old(stream.pos) + a + b
      ensures buf[..] == Spliced(old(buf[..]), at, Slice(stream.disk, old(stream.pos), a + b))
    {
      hide Spliced, Slice, ByteAt;
      ghost var start, before := stream.pos, buf[..];
      SpliceNothing(before, at, stream.disk, start);
      SpliceNothing(Spliced(before, at, Slice(stream.disk, start, a)), at + a, stream.disk, start + a);
      var _ := Read(stream, buf, at, a, true);
      assert buf[..] == Spliced(before, at, Slice(stream.disk, start, a));
      var _ := Read(stream, buf, at + a, b, true);
      SplicedTwice(before, at, Slice(stream.disk, start, a), Slice(stream.disk, start + a, b));
      SliceConcat(stream.disk, start, a, b);
    }
  }

  lemma SpliceNothing(buf: seq<u8>, at: nat, disk: Disk, pos: nat)
    requires at <= |buf|
    ensures Spliced(buf, at, Slice(disk, pos, 0)) == buf
  {
  }
}
