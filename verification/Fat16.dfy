/**
  fs/fat/fat16.c: reading a file through its cluster chain (Microsoft FAT32
  File System Specification v1.03, "Boot Sector and BPB" and "FAT Data
  Structure"), against the flat sequence of bytes the chain stands for.
 */
module Fat16 {
  import opened Machine
  import opened DiskStream

  datatype Option<+T> = None | Some(value: T)

  /** The fields of the boot sector and root directory that reading uses; a cluster is clusterSize bytes. */
  datatype Layout = Layout(disk: Disk, sectorsPerCluster: nat, reservedSectors: nat, endingSector: nat)

  predicate WellFormed(v: Layout) {
    0 < v.sectorsPerCluster < 256 && v.reservedSectors < 0x1_0000
  }

  function ClusterSize(v: Layout): (r: nat)
    ensures v.sectorsPerCluster > 0 ==> r > 0
  {
    v.sectorsPerCluster * 512
  }

  // ----- the file allocation table

  /** The little-endian 16-bit FAT entry of a cluster. */
  function FatEntry(v: Layout, c: nat): nat {
    ByteAt(v.disk, v.reservedSectors * 512 + c * 2) as nat
    + 256 * ByteAt(v.disk, v.reservedSectors * 512 + c * 2 + 1) as nat
  }

  /** `fat16_check_cluster_entry`. */
  function CheckClusterEntry(entry: int): i32 {
    if entry == 0xFFF8 || entry == 0xFFFF then EIO
    else if entry == 0xFF7 then EIO
    else if entry == 0xFF0 || entry == 0xFF6 then EIO
    else if entry == 0 then EIO
    else OK
  }

  /** Where the check agrees with the FAT16 rules, by which a chain stops at a free entry, a bad cluster (0xFFF7) or
      any end mark (0xFFF8 and up): everywhere but on the FAT12 values 0xFF0, 0xFF6 and 0xFF7, on 0xFFF7, and on the
      end marks other than 0xFFF8 and 0xFFFF. */
  lemma CheckAgreesWithFat16(entry: nat)
    requires entry < 0x1_0000
    ensures (CheckClusterEntry(entry) < 0 <==> entry == 0 || entry >= 0xFFF7)
      <==> entry !in {0xFF0, 0xFF6, 0xFF7, 0xFFF7} && !(0xFFF9 <= entry <= 0xFFFE)
  {
  }

  function Next(v: Layout, c: nat): Option<nat> {
    var entry := FatEntry(v, c);
    if CheckClusterEntry(entry) < 0 then None else Some(entry)
  }

  /** The cluster k links down the chain, if the chain goes that far. */
  function Walk(v: Layout, start: nat, k: nat): Option<nat> {
    if k == 0 then Some(start)
    else match Walk(v, start, k - 1)
      case None => None
      case Some(c) => Next(v, c)
  }

  predicate Reaches(v: Layout, start: nat, k: nat) {
    Walk(v, start, k).Some?
  }

  lemma {:induction false} ReachesBelow(v: Layout, start: nat, j: nat, k: nat)
    requires j <= k && Reaches(v, start, k)
    ensures Reaches(v, start, j)
    decreases k
  {
    if j < k {
      ReachesBelow(v, start, j, k - 1);
    }
  }

  lemma {:induction false} WalkStops(v: Layout, start: nat, j: nat, k: nat)
    requires j <= k && Walk(v, start, j) == None
    ensures Walk(v, start, k) == None
    decreases k
  {
    if j < k {
      WalkStops(v, start, j, k - 1);
    }
  }

  lemma {:induction false} WalkIs16Bit(v: Layout, start: nat, k: nat)
    requires start < 0x1_0000 && Reaches(v, start, k)
    ensures Walk(v, start, k).value < 0x1_0000
    decreases k
  {
    if k > 0 {
      ReachesBelow(v, start, k - 1, k);
    }
  }

  /** Links i and j of the chain lead to the same cluster. */
  predicate MeetsTwice(v: Layout, start: nat, i: nat, j: nat) {
    i < j && Reaches(v, start, j) && Walk(v, start, i) == Walk(v, start, j)
  }

  /** From two equal clusters on, a chain goes on equally. */
  lemma {:induction false} WalksAgree(v: Layout, start: nat, i: nat, j: nat, m: nat)
    requires Walk(v, start, i) == Walk(v, start, j)
    ensures Walk(v, start, i + m) == Walk(v, start, j + m)
    decreases m
  {
    hide Next;
    if m > 0 {
      WalksAgree(v, start, i, j, m - 1);
    }
  }

  /** A chain that meets a cluster twice never ends. */
  lemma {:induction false} RepeatNeverEnds(v: Layout, start: nat, i: nat, j: nat, k: nat)
    requires MeetsTwice(v, start, i, j)
    ensures Reaches(v, start, k)
    decreases k
  {
    hide Next, Walk;
    if k <= j {
      ReachesBelow(v, start, k, j);
    } else {
      RepeatNeverEnds(v, start, i, j, k - (j - i));
      WalksAgree(v, start, i, j, k - j);
    }
  }

  /** A chain never ends exactly when it can be followed for as many links as there are cluster numbers, which a
      caller can check: by then it has met some cluster twice. */
  lemma NeverEndsExact(v: Layout, start: nat)
    requires start < 0x1_0000
    ensures Reaches(v, start, 0x1_0000) <==> forall k: nat :: Reaches(v, start, k)
    ensures Reaches(v, start, 0x1_0000) <==> exists i: nat, j: nat :: MeetsTwice(v, start, i, j)
  {
    if Reaches(v, start, 0x1_0000) {
      var i, j := FirstRepeat(v, start);
      forall k: nat ensures Reaches(v, start, k) {
        RepeatNeverEnds(v, start, i, j, k);
      }
    }
    if i: nat, j: nat :| MeetsTwice(v, start, i, j) {
      RepeatNeverEnds(v, start, i, j, 0x1_0000);
    }
  }

  /** Watching the chain for 65536 links or more tells whether it ends. */
  lemma EnoughLinks(v: Layout, start: nat, k: nat)
    requires start < 0x1_0000 && k >= 0x1_0000
    ensures Reaches(v, start, k) <==> Reaches(v, start, 0x1_0000)
  {
    NeverEndsExact(v, start);
    if Reaches(v, start, k) {
      ReachesBelow(v, start, 0x1_0000, k);
    }
  }

  lemma FirstRepeat(v: Layout, start: nat) returns (i: nat, j: nat)
    requires start < 0x1_0000 && Reaches(v, start, 0x1_0000)
    ensures MeetsTwice(v, start, i, j)
  {
    hide Walk;
    forall k: nat | k <= 0x1_0000 ensures Reaches(v, start, k) && Walk(v, start, k).value < 0x1_0000 {
      ReachesBelow(v, start, k, 0x1_0000);
      WalkIs16Bit(v, start, k);
    }
    var met := seq(0x1_0001, k requires 0 <= k < 0x1_0001 => Walk(v, start, k).value);
    i, j := Repeated(met, 0x1_0000);
  }

  /** More numbers than there are below n cannot all be different. */
  lemma {:induction false} Repeated(s: seq<nat>, n: nat) returns (i: nat, j: nat)
    requires |s| > n && forall k :: 0 <= k < |s| ==> s[k] < n
    ensures i < j < |s| && s[i] == s[j]
    decreases n
  {
    var last := |s| - 1;
    if k :| 0 <= k < last && s[k] == s[last] {
      i, j := k, last;
    } else {
      // Renaming n - 1 to the last value leaves a shorter list below n - 1.
      var t := seq(last, k requires 0 <= k < last => if s[k] == n - 1 then s[last] else s[k]);
      forall k | 0 <= k < last ensures t[k] < n - 1 {
        assert s[k] != s[last];
      }
      i, j := Repeated(t, n - 1);
      assert s[i] != s[last] && s[j] != s[last];
    }
  }

  // ----- the file as bytes

  /** `fat16_cluster_to_sector`. */
  function ClusterToSector(v: Layout, c: int): int {
    v.endingSector + (c - 2) * v.sectorsPerCluster
  }

  function ClusterPos(v: Layout, c: int): int {
    ClusterToSector(v, c) * 512
  }

  predicate InVolume(v: Layout, c: nat) {
    0 <= ClusterPos(v, c) && ClusterPos(v, c) + ClusterSize(v) <= INT_MAX
  }

  /** Every cluster the chain leads to lies in the volume, at positions an `int` can hold. */
  ghost predicate ChainInVolume(v: Layout, start: nat) {
    start < 0x1_0000 && forall k: nat :: Reaches(v, start, k) ==> InVolume(v, Walk(v, start, k).value)
  }

  function Quot(x: nat, d: nat): nat
    requires d > 0
  {
    x / d
  }

  function Rem(x: nat, d: nat): (r: nat)
    requires d > 0
    ensures r < d
  {
    x % d
  }

  /** Which cluster of its chain byte i of a file is in, and where in that cluster. */
  function ClusterIndex(v: Layout, i: nat): nat
    requires WellFormed(v)
  {
    Quot(i, ClusterSize(v))
  }

  function ClusterOffset(v: Layout, i: nat): (r: nat)
    requires WellFormed(v)
    ensures r < ClusterSize(v)
  {
    Rem(i, ClusterSize(v))
  }

  /** Byte i of the concatenation of the clusters of the chain; off the chain there is nothing to read and the value
      is 0. */
  function FileByte(v: Layout, start: nat, i: nat): u8
    requires WellFormed(v)
  {
    match Walk(v, start, ClusterIndex(v, i))
    case None => 0
    case Some(c) => if InVolume(v, c) then ByteAt(v.disk, ClusterPos(v, c) + ClusterOffset(v, i)) else 0
  }

  /** The data area: cluster 2 begins at the ending sector, each cluster takes `sectorsPerCluster` sectors of 512 bytes,
      and the next cluster begins where it ends. */
  lemma ClustersInARow(v: Layout, c: int)
    ensures ClusterPos(v, 2) == 512 * v.endingSector && ClusterSize(v) == 512 * v.sectorsPerCluster
    ensures ClusterPos(v, c + 1) == ClusterPos(v, c) + ClusterSize(v)
  {
    MulStep(c - 2, v.sectorsPerCluster);
  }

  lemma MulStep(k: int, d: int)
    ensures (k + 1) * d == k * d + d
  {
  }

  /** Where on the disk a file's byte is: byte r of its k-th cluster is byte r of the cluster k links down the chain,
      which starts c - 2 clusters into the data area. */
  lemma FileByteOnDisk(v: Layout, start: nat, k: nat, r: nat, c: nat, from: nat)
    requires WellFormed(v) && Walk(v, start, k) == Some(c) && r < 512 * v.sectorsPerCluster
    requires from == 512 * v.endingSector + (c - 2) * (512 * v.sectorsPerCluster)
    requires from + 512 * v.sectorsPerCluster <= INT_MAX
    ensures FileByte(v, start, k * (512 * v.sectorsPerCluster) + r) == v.disk((from + r) / 512)[(from + r) % 512]
  {
    hide Walk, Quot, Rem;
    ClusterAt(v, c);
    DivIs(k * (512 * v.sectorsPerCluster) + r, 512 * v.sectorsPerCluster, k, r);
  }

  lemma ClusterAt(v: Layout, c: nat)
    ensures ClusterPos(v, c) == 512 * v.endingSector + (c - 2) * (512 * v.sectorsPerCluster)
  {
    assert (c - 2) * v.sectorsPerCluster * 512 == (c - 2) * (512 * v.sectorsPerCluster);
  }

  /** Bytes [offset, offset + n) of the file. */
  function FileSlice(v: Layout, start: nat, offset: nat, n: nat): (bytes: seq<u8>)
    requires WellFormed(v)
    ensures |bytes| == n
  {
    seq(n, k requires 0 <= k < n && WellFormed(v) => FileByte(v, start, offset + k))
  }

  /** The chain is long enough to hold bytes [offset, offset + n). */
  predicate OnChain(v: Layout, start: nat, offset: nat, n: nat)
    requires WellFormed(v)
  {
    n > 0 ==> Reaches(v, start, ClusterIndex(v, offset + n - 1))
  }

  /** Adjacent slices of a file join. */
  lemma FileSliceConcat(v: Layout, start: nat, offset: nat, m: nat, n: nat)
    requires WellFormed(v)
    ensures FileSlice(v, start, offset, m) + FileSlice(v, start, offset + m, n) == FileSlice(v, start, offset, m + n)
  {
    hide FileByte;
  }

  // ----- division by the cluster size

  lemma QuotRem(x: nat, d: nat)
    requires d > 0
    ensures x == d * Quot(x, d) + Rem(x, d)
  {
  }

  lemma DivIs(x: nat, d: nat, q: nat, r: nat)
    requires d > 0 && r < d && x == d * q + r
    ensures Quot(x, d) == q && Rem(x, d) == r
  {
    hide Quot, Rem;
    QuotRem(x, d);
    var q', r' := Quot(x, d), Rem(x, d);
    if q < q' {
      MulGrows(d, q, q');
    } else if q' < q {
      MulGrows(d, q', q);
    }
  }

  lemma MulGrows(d: nat, a: nat, b: nat)
    requires a < b
    ensures d * b >= d * a + d
  {
    assert d * b == d * a + d * (b - a);
    assert d * (b - a) == d + d * (b - a - 1);
  }

  lemma DivMonotone(a: nat, b: nat, d: nat)
    requires d > 0 && a <= b
    ensures Quot(a, d) <= Quot(b, d)
  {
    hide Quot, Rem;
    QuotRem(a, d);
    QuotRem(b, d);
    if Quot(b, d) < Quot(a, d) {
      MulGrows(d, Quot(b, d), Quot(a, d));
    }
  }

  /** Moving on by k inside one cluster. */
  lemma SameCluster(v: Layout, offset: nat, k: nat)
    requires WellFormed(v) && ClusterOffset(v, offset) + k < ClusterSize(v)
    ensures ClusterIndex(v, offset + k) == ClusterIndex(v, offset)
      && ClusterOffset(v, offset + k) == ClusterOffset(v, offset) + k
  {
    hide Quot, Rem, ClusterSize;
    var d := ClusterSize(v);
    QuotRem(offset, d);
    DivIs(offset + k, d, Quot(offset, d), Rem(offset, d) + k);
  }

  /** Moving on to the end of the cluster. */
  lemma NextCluster(v: Layout, offset: nat, k: nat)
    requires WellFormed(v) && ClusterOffset(v, offset) + k == ClusterSize(v)
    ensures ClusterIndex(v, offset + k) == ClusterIndex(v, offset) + 1 && ClusterOffset(v, offset + k) == 0
  {
    hide Quot, Rem, ClusterSize;
    var d := ClusterSize(v);
    QuotRem(offset, d);
    MulNext(d, Quot(offset, d));
    DivIs(offset + k, d, Quot(offset, d) + 1, 0);
  }

  lemma MulNext(d: nat, q: nat)
    ensures d * (q + 1) == d * q + d
  {
  }

  lemma FirstCluster(v: Layout, offset: nat)
    requires WellFormed(v)
    ensures offset < ClusterSize(v) <==> ClusterIndex(v, offset) == 0
    ensures offset < ClusterSize(v) ==> ClusterOffset(v, offset) == offset
    ensures offset == ClusterSize(v) ==> ClusterIndex(v, offset) == 1 && ClusterOffset(v, offset) == 0
  {
    hide Quot, Rem, ClusterSize;
    var d := ClusterSize(v);
    QuotRem(offset, d);
    if offset < d {
      DivIs(offset, d, 0, offset);
    }
    if offset == d {
      DivIs(offset, d, 1, 0);
    }
  }

  lemma IndexMonotone(v: Layout, a: nat, b: nat)
    requires WellFormed(v) && a <= b
    ensures ClusterIndex(v, a) <= ClusterIndex(v, b)
  {
    DivMonotone(a, b, ClusterSize(v));
  }

  /** A piece of one cluster, read from the disk, is that piece of the file. */
  lemma ClusterPieceIsFileSlice(v: Layout, start: nat, offset: nat, n: nat, c: nat)
    requires WellFormed(v) && Walk(v, start, ClusterIndex(v, offset)) == Some(c) && InVolume(v, c)
    requires ClusterOffset(v, offset) + n <= ClusterSize(v)
    ensures OnChain(v, start, offset, n)
    ensures FileSlice(v, start, offset, n) == Slice(v.disk, ClusterPos(v, c) + ClusterOffset(v, offset), n)
  {
    hide ClusterPos, ByteAt, ClusterIndex, ClusterOffset, ClusterSize;
    if n > 0 {
      SameCluster(v, offset, n - 1);
    }
    var bytes := Slice(v.disk, ClusterPos(v, c) + ClusterOffset(v, offset), n);
    forall k | 0 <= k < n ensures FileSlice(v, start, offset, n)[k] == bytes[k] {
      SameCluster(v, offset, k);
    }
  }

  // ----- the operations

  /** How many links `fat16_get_cluster_for_offset` follows: C's division truncates, so a negative offset follows
      none. */
  function LinksFor(v: Layout, offset: int): nat
    requires WellFormed(v)
  {
    if offset >= 0 then ClusterIndex(v, offset) else 0
  }

  /** A read ends with a status, or is still following the chain when `fuel` rounds of its loop are used up. */
  datatype Ending = Done(code: int) | StillWalking

  /** A read call completes with its item count, fails with an error number, or is still following the chain. */
  datatype Reading = Completed(code: i32) | Failed(error: int) | Unfinished

  /** An open file: `fat_item_descriptor` with the first cluster of its directory item. */
  class Descriptor {
    const isFile: bool
    const firstCluster: nat
    var pos: u32

    constructor (isFile: bool, firstCluster: nat)
      ensures this.isFile == isFile && this.firstCluster == firstCluster && pos == 0
    {
      this.isFile, this.firstCluster, pos := isFile, firstCluster, 0;
    }
  }

  /** A request size that is also a positive `int`, which is what the read loop takes it as. */
  predicate Positive(size: u32) {
    0 < size < 0x8000_0000
  }

  /** How many bytes n items of the given size are. */
  function Bytes(size: u32, n: nat): nat {
    size * n
  }

  /** A mounted volume: its layout and the two streams reading goes through. `heapOk` in the methods says whether the
      allocator can supply the streams' sector buffer during the call. */
  class Volume {
    const layout: Layout
    const fatStream: Stream
    const clusterStream: Stream

    ghost predicate Valid() {
      WellFormed(layout) && fatStream != clusterStream && fatStream.disk == layout.disk
        && clusterStream.disk == layout.disk
    }

    constructor (layout: Layout)
      requires WellFormed(layout)
      ensures Valid() && this.layout == layout && fresh(fatStream) && fresh(clusterStream)
    {
      this.layout := layout;
      fatStream := new Stream(layout.disk);
      clusterStream := new Stream(layout.disk);
    }

    /** `fat16_get_fat_entry`: without a sector buffer the error number comes back in place of an entry. */
    method GetFatEntry(c: int, heapOk: bool) returns (res: int)
      requires Valid() && (heapOk ==> 0 <= c < 0x1_0000)
      modifies fatStream
      ensures res == if heapOk then FatEntry(layout, c) else ENOMEM
    {
      var position := layout.reservedSectors * 512 + c * 2;
      res := Stream.Seek(fatStream, position);
      if res < 0 {
        return;
      }
      var result := new u8[2];
      res := ReadEntry(fatStream, result, heapOk);
      if res < 0 {
        return;
      }
      res := result[0] as int + 256 * result[1] as int;
    }

    /** The two-byte `diskstream_read` of an entry. */
    static method ReadEntry(stream: Stream, result: array<u8>, heapOk: bool) returns (res: i32)
      requires result.Length == 2 && (heapOk ==> 0 <= stream.pos && stream.pos + 2 <= INT_MAX)
      modifies stream, result
      ensures res == if heapOk then OK else ENOMEM
      ensures heapOk ==>
        result[0] == ByteAt(stream.disk, old(stream.pos)) && result[1] == ByteAt(stream.disk, old(stream.pos) + 1)
    {
      res := Stream.Read(stream, result, 0, 2, heapOk);
      if res < 0 {
        return;
      }
      assert Slice(stream.disk, old(stream.pos), 2) == [ByteAt(stream.disk, old(stream.pos)),
        ByteAt(stream.disk, old(stream.pos) + 1)];
      assert result[..] == Slice(stream.disk, old(stream.pos), 2);
      assert result[0] == result[..][0] && result[1] == result[..][1];
    }

    /** `fat16_get_cluster_for_offset`. */
    method GetClusterForOffset(start: nat, offset: int, heapOk: bool) returns (res: int)
      requires Valid() && start < 0x1_0000
      modifies fatStream
      ensures heapOk ==> res == match Walk(layout, start, LinksFor(layout, offset)) case None => EIO case Some(c) => c
      ensures !heapOk ==> res == if LinksFor(layout, offset) == 0 then start else ENOMEM
    {
      hide FatEntry, ClusterIndex;
      var cluster: int := start;
      var ahead := LinksFor(layout, offset);
      var i := 0;
      while i < ahead
        invariant 0 <= i <= ahead
        invariant heapOk ==> 0 <= cluster < 0x1_0000 && Walk(layout, start, i) == Some(cluster)
        invariant !heapOk ==> cluster == if i == 0 then start else ENOMEM
      {
        var entry := GetFatEntry(cluster, heapOk);
        if CheckClusterEntry(entry) < 0 {
          if i + 1 < ahead {
            WalkStops(layout, start, i + 1, ahead);
          }
          return EIO;
        }
        if heapOk {
          EntryIs16Bit(layout, cluster);
        }
        cluster := entry;
        i := i + 1;
      }
      res := cluster;
    }

    /** `fat16_get_next_cluster`. */
    method GetNextCluster(c: nat, heapOk: bool) returns (res: int)
      requires Valid() && c < 0x1_0000
      modifies fatStream
      ensures heapOk ==> res == match Next(layout, c) case None => EIO case Some(d) => d
      ensures !heapOk ==> res == ENOMEM
    {
      hide FatEntry;
      var entry := GetFatEntry(c, heapOk);
      if CheckClusterEntry(entry) < 0 {
        return EIO;
      }
      res := entry;
    }

    /** The seek and read of one round: a piece of one cluster. */
    method ReadPiece(c: nat, off: int, piece: int, out: array<u8>, at: nat, heapOk: bool) returns (res: i32)
      requires Valid() && off >= 0 && InVolume(layout, c) && at <= out.Length && at + piece <= out.Length
      requires ClusterOffset(layout, off) + piece <= ClusterSize(layout)
      modifies clusterStream, out
      ensures res == if piece < 0 then EINVAGS else if !heapOk then ENOMEM else OK
      ensures res == OK ==> 0 <= ClusterPos(layout, c) && 0 <= piece
      ensures res == OK ==> out[..] == Spliced(old(out[..]), at,
        Slice(layout.disk, ClusterPos(layout, c) + ClusterOffset(layout, off), piece))
      ensures res != OK ==> out[..] == old(out[..])
    {
      hide ByteAt, Spliced, Slice, Quot, Rem, ClusterOffset, ClusterSize;
      var startingPos := ClusterToSector(layout, c) * SECTOR_SIZE + ClusterOffset(layout, off);
      res := Stream.Seek(clusterStream, startingPos);
      SpliceNothing(out[..], at, layout.disk, startingPos);
      res := Stream.Read(clusterStream, out, at, piece, heapOk);
    }

    /** `fat16_read_internal_from_stream` as it stands: each round is bounded by the cluster size less the offset in
        the file, not the offset in the cluster. A non-empty read therefore succeeds exactly when it lies inside the
        first cluster, and then delivers those bytes of the file. A read that starts beyond that cluster fails; one
        that crosses its end follows the chain without reading until the chain ends, and for ever if it does not. */
    method ReadInternal(start: nat, offset: int, total: int, out: array<u8>, at: nat, heapOk: bool, fuel: nat)
      returns (r: Ending)
      requires Valid() && ChainInVolume(layout, start)
      requires total > 0 ==> offset >= 0 && at + total <= out.Length
      modifies fatStream, clusterStream, out
      ensures total <= 0 ==> out[..] == old(out[..])
      ensures total <= 0 ==> r == Done(
        if LinksFor(layout, offset) > 0 && !heapOk then ENOMEM
        else if heapOk && !Reaches(layout, start, LinksFor(layout, offset)) then EIO else OK)
      ensures r.Done? ==> r.code == OK || r.code < 0
      ensures total > 0 && !heapOk && fuel > 0 ==> r == Done(ENOMEM)
      ensures total > 0 ==> (r == Done(OK) <==> heapOk && fuel > 0 && offset + total <= ClusterSize(layout))
      ensures total > 0 && r == Done(OK) ==>
        OnChain(layout, start, offset, total)
          && out[..] == Spliced(old(out[..]), at, FileSlice(layout, start, offset, total))
      ensures total > 0 && heapOk && fuel > 0 && offset > ClusterSize(layout) ==>
        r == Done(if Reaches(layout, start, ClusterIndex(layout, offset)) then EINVAGS else EIO)
      ensures total > 0 && heapOk && fuel > 0 && offset <= ClusterSize(layout) < offset + total ==>
        r == if Reaches(layout, start, ClusterIndex(layout, offset) + fuel) then StillWalking else Done(EIO)
      ensures total > 0 && heapOk && fuel >= 0x1_0000 && offset <= ClusterSize(layout) < offset + total ==>
        r == if Reaches(layout, start, 0x1_0000) then StillWalking else Done(EIO)
    {
      hide ClusterPos, FatEntry, ByteAt, Quot, Rem, Slice, FileByte, FileSlice, Spliced, ClusterIndex, ClusterOffset,
        ClusterSize, InVolume;
      if total > 0 && fuel >= 0x1_0000 {
        EnoughLinks(layout, start, ClusterIndex(layout, offset) + fuel);
      }
      var perCluster := ClusterSize(layout);
      var cluster := GetClusterForOffset(start, offset, heapOk);
      ghost var ahead := LinksFor(layout, offset);
      if total > 0 {
        FirstCluster(layout, offset);
      }
      if cluster < 0 {
        if heapOk {
          WalkStops(layout, start, ahead, ahead + fuel);
        }
        return Done(cluster);
      }
      var remaining, off, o := total, offset, at;
      var f: nat := fuel;
      while remaining > 0
        invariant f <= fuel && o + remaining == at + total && at <= o
        invariant total <= 0 ==> out[..] == old(out[..]) && remaining == total
        invariant f == fuel ==> remaining == total && off == offset && out[..] == old(out[..])
        invariant f == fuel && heapOk ==> Walk(layout, start, ahead) == Some(cluster)
        invariant f == fuel && !heapOk ==> ahead == 0 && cluster == start
        invariant total > 0 && f < fuel && remaining > 0 ==>
          heapOk && offset <= perCluster < offset + total && off == perCluster
            && Walk(layout, start, ahead + (fuel - f)) == Some(cluster)
        invariant total > 0 && f < fuel && remaining <= 0 ==>
          heapOk && offset + total <= perCluster && remaining == 0
          && OnChain(layout, start, offset, total)
            && out[..] == Spliced(old(out[..]), at, FileSlice(layout, start, offset, total))
        decreases f
      {
        if f == 0 {
          return StillWalking;
        }
        ChainCluster(layout, start, ahead + (fuel - f), cluster);
        var piece := if remaining < perCluster - off then remaining else perCluster - off;
        PieceFits(layout, off, piece);
        var res := ReadPiece(cluster, off, piece, out, o, heapOk);
        if res != OK {
          return Done(res);
        }
        if f == fuel && offset < perCluster {
          ClusterPieceIsFileSlice(layout, start, offset, piece, cluster);
        }
        f := f - 1;
        remaining, off, o := remaining - piece, off + piece, o + piece;
        if remaining > 0 {
          var next := GetNextCluster(cluster, heapOk);
          if next < 0 {
            WalkStops(layout, start, ahead + (fuel - f), ahead + fuel);
            return Done(next);
          }
          cluster := next;
        }
      }
      r := Done(OK);
    }

    /** The same loop with the bound that was evidently meant, the cluster size less the offset in the cluster. This
        is not the repository's code: it shows what that one change gives, namely that every read on the chain
        succeeds and delivers exactly its bytes, whatever clusters it crosses. */
    method ReadInternalCorrected(start: nat, offset: nat, total: nat, out: array<u8>, at: nat) returns (res: int)
      requires Valid() && ChainInVolume(layout, start) && at + total <= out.Length
      modifies fatStream, clusterStream, out
      ensures total > 0 ==> res == if OnChain(layout, start, offset, total) then OK else EIO
      ensures res == OK ==> out[..] == Spliced(old(out[..]), at, FileSlice(layout, start, offset, total))
    {
      hide ClusterPos, FatEntry, ByteAt, Quot, Rem, Slice, FileByte, FileSlice, Spliced, ClusterIndex, ClusterOffset,
        ClusterSize, InVolume;
      var perCluster := ClusterSize(layout);
      var cluster := GetClusterForOffset(start, offset, true);
      if cluster < 0 {
        if total > 0 {
          IndexMonotone(layout, offset, offset + total - 1);
          WalkStops(layout, start, ClusterIndex(layout, offset), ClusterIndex(layout, offset + total - 1));
        }
        return EIO;
      }
      NothingSliced(out[..], at, layout, start, offset);
      var remaining, off, o := total, offset, at;
      while remaining > 0
        invariant 0 <= remaining <= total && o == at + (total - remaining) && off == offset + (total - remaining)
        invariant remaining > 0 ==> Walk(layout, start, ClusterIndex(layout, off)) == Some(cluster)
        invariant out[..] == Spliced(old(out[..]), at, FileSlice(layout, start, offset, total - remaining))
        invariant remaining == 0 ==> OnChain(layout, start, offset, total)
      {
        ChainCluster(layout, start, ClusterIndex(layout, off), cluster);
        var piece := if remaining < perCluster - ClusterOffset(layout, off) then remaining
          else perCluster - ClusterOffset(layout, off);
        var status := ReadPiece(cluster, off, piece, out, o, true);
        ClusterPieceIsFileSlice(layout, start, off, piece, cluster);
        SplicedTwice(old(out[..]), at, FileSlice(layout, start, offset, total - remaining),
          FileSlice(layout, start, off, piece));
        FileSliceConcat(layout, start, offset, total - remaining, piece);
        assert off + piece - 1 == offset + (total - (remaining - piece)) - 1;
        if piece < remaining {
          NextCluster(layout, off, piece);
          IndexMonotone(layout, off + piece, offset + total - 1);
        }
        remaining, off, o := remaining - piece, off + piece, o + piece;
        if remaining > 0 {
          var next := GetNextCluster(cluster, true);
          if next < 0 {
            WalkStops(layout, start, ClusterIndex(layout, off), ClusterIndex(layout, offset + total - 1));
            return next;
          }
          cluster := next;
        }
      }
      res := OK;
    }

    /** `fat16_read`: nmemb reads of size bytes each, one after the other. Completing is advancing the descriptor by
        all of it; a call that does not complete leaves the descriptor alone. */
    method FatRead(desc: Descriptor, size: u32, nmemb: u32, out: array<u8>, at: nat, heapOk: bool, fuel: nat)
      returns (r: Reading)
      requires Valid() && ChainInVolume(layout, desc.firstCluster)
      requires Positive(size) ==> desc.pos < 0x8000_0000 && at + Bytes(size, nmemb) <= out.Length
      modifies fatStream, clusterStream, out, desc
      ensures !desc.isFile ==> r == Failed(EINVAGS) && out[..] == old(out[..])
      ensures desc.pos == if r.Completed? then Wrap(old(desc.pos) + Bytes(size, nmemb)) else old(desc.pos)
      ensures r.Completed? ==> r.code == ToInt32(nmemb)
      ensures desc.isFile && Positive(size) && nmemb > 0 && fuel > 0 ==>
        (r.Completed? <==> heapOk && old(desc.pos) + Bytes(size, nmemb) <= ClusterSize(layout))
      ensures r.Completed? && Positive(size) ==>
        out[..] == Spliced(old(out[..]), at, FileSlice(layout, desc.firstCluster, old(desc.pos), Bytes(size, nmemb)))
      ensures !Positive(size) ==> out[..] == old(out[..])
    {
      hide Spliced, FileSlice, ClusterSize, Bytes, Wrap, ToInt32, ChainInVolume, OnChain, Reaches, ClusterIndex,
        ClusterOffset;
      if !desc.isFile {
        return Failed(EINVAGS);
      }
      ghost var pos := desc.pos;
      var first := desc.firstCluster;
      if Positive(size) {
        NothingSliced(out[..], at, layout, first, pos);
      }
      ClusterSizeBound(layout);
      SignedSize(size);
      SignedPos(pos);
      var offset: int := ToInt32(desc.pos);
      var o, i := at, 0;
      BytesStep(size, 0);
      BytesMonotone(size, 0, nmemb);
      while i < nmemb
        invariant 0 <= i <= nmemb && Bytes(size, i) <= Bytes(size, nmemb)
        invariant o == at + Bytes(size, i) && Wrap(offset) == Wrap(pos + Bytes(size, i))
        invariant Positive(size) ==>
          offset == pos + Bytes(size, i) && (i > 0 ==> heapOk && fuel > 0 && offset <= ClusterSize(layout))
        invariant Positive(size) ==> out[..] == Spliced(old(out[..]), at, FileSlice(layout, first, pos, Bytes(size, i)))
        invariant !Positive(size) ==> out[..] == old(out[..])
        invariant desc.pos == pos
      {
        BytesStep(size, i);
        BytesMonotone(size, i + 1, nmemb);
        var step := ReadInternal(first, offset, ToInt32(size), out, o, heapOk, fuel);
        if step.StillWalking? {
          return Unfinished;
        }
        if step.code < 0 {
          return Failed(step.code);
        }
        if Positive(size) {
          SplicedTwice(old(out[..]), at, FileSlice(layout, first, pos, Bytes(size, i)),
            FileSlice(layout, first, offset, size));
          FileSliceConcat(layout, first, pos, Bytes(size, i), size);
        }
        OffsetStep(offset, size, pos + Bytes(size, i));
        offset, o, i := ToInt32(offset + size), o + size, i + 1;
      }
      OffsetWrap(offset);
      desc.pos := Wrap(offset);
      r := Completed(ToInt32(nmemb));
    }

    /** Two completed calls read one contiguous stretch of the file. */
    method FatReadTwice(desc: Descriptor, size: u32, m: u32, n: u32, out: array<u8>, at: nat, heapOk: bool, fuel: nat)
      returns (r: Reading, s: Reading)
      requires Valid() && ChainInVolume(layout, desc.firstCluster) && Positive(size) && desc.pos < 0x8000_0000
        && 0 < m && 0 < fuel
      requires at + Bytes(size, m) + Bytes(size, n) <= out.Length
      modifies fatStream, clusterStream, out, desc
      ensures r.Completed? && s.Completed? ==>
        out[..] == Spliced(old(out[..]), at,
          FileSlice(layout, desc.firstCluster, old(desc.pos), Bytes(size, m) + Bytes(size, n)))
    {
      hide Spliced, FileSlice, ClusterSize, Bytes, ToInt32, ChainInVolume, OnChain, Reaches, ClusterIndex,
        ClusterOffset;
      ghost var pos := desc.pos;
      ClusterSizeBound(layout);
      r := FatRead(desc, size, m, out, at, heapOk, fuel);
      if !r.Completed? {
        return r, Unfinished;
      }
      s := FatRead(desc, size, n, out, at + Bytes(size, m), heapOk, fuel);
      SplicedTwice(old(out[..]), at, FileSlice(layout, desc.firstCluster, pos, Bytes(size, m)),
                   FileSlice(layout, desc.firstCluster, pos + Bytes(size, m), Bytes(size, n)));
      FileSliceConcat(layout, desc.firstCluster, pos, Bytes(size, m), Bytes(size, n));
    }
  }

  function SmallFat(): Sector {
    seq(512, k => if k == 4 then 3 else if k == 6 then 4 else if k == 8 || k == 9 then 255 else 0)
  }

  function SmallDisk(n: nat): Sector {
    if n == 1 then SmallFat() else seq(512, _ => 7)
  }

  /** A volume of one-sector clusters whose file is the three clusters 2, 3 and 4; the FAT is sector 1. */
  function SmallVolume(): (v: Layout)
    ensures WellFormed(v)
  {
    Layout(SmallDisk, 1, 1, 2)
  }

  lemma SmallChain()
    ensures Walk(SmallVolume(), 2, 1) == Some(3) && Walk(SmallVolume(), 2, 2) == Some(4)
      && Walk(SmallVolume(), 2, 3) == None
    ensures ChainInVolume(SmallVolume(), 2) && ClusterSize(SmallVolume()) == 512
  {
    var v := SmallVolume();
    assert ByteAt(SmallDisk, 516) == 3 && ByteAt(SmallDisk, 517) == 0 && ByteAt(SmallDisk, 518) == 4;
    assert ByteAt(SmallDisk, 519) == 0 && ByteAt(SmallDisk, 520) == 255 && ByteAt(SmallDisk, 521) == 255;
    assert FatEntry(v, 2) == 3 && FatEntry(v, 3) == 4 && FatEntry(v, 4) == 0xFFFF;
    assert Walk(v, 2, 1) == Some(3) && Walk(v, 2, 2) == Some(4);
    forall k: nat | Reaches(v, 2, k) ensures InVolume(v, Walk(v, 2, k).value) {
      if k >= 3 {
        ReachesBelow(v, 2, 3, k);
      }
    }
  }

  /** A file of three clusters: the code cannot read the first byte of its second cluster, nor of its third, though
      both are on the chain. */
  method SecondClusterUnread() returns (second: Ending, third: Ending)
    ensures OnChain(SmallVolume(), 2, 512, 1) && OnChain(SmallVolume(), 2, 1024, 1)
    ensures second == Done(-1) && third == Done(-2)
  {
    hide Walk, Quot, Rem, SmallVolume;
    SmallChain();
    var v := SmallVolume();
    DivIs(512, 512, 1, 0);
    DivIs(1024, 512, 2, 0);
    assert ClusterIndex(v, 512) == 1 && ClusterIndex(v, 1024) == 2;
    WalkStops(v, 2, 3, 6);
    var volume := new Volume(v);
    var out := new u8[1];
    second := volume.ReadInternal(2, 512, 1, out, 0, true, 5);
    third := volume.ReadInternal(2, 1024, 1, out, 0, true, 5);
  }

  /** The same volume with every sector but the FAT filled with its own number. */
  function NumberedDisk(n: nat): Sector {
    if n == 1 then SmallFat() else seq(512, _ => (n % 256) as u8)
  }

  /** The first byte of the file at cluster 2 is the first of sector 2, and that of the file at cluster 3 the first of
      sector 3. */
  method FirstBytes() returns (a: u8, b: u8)
    ensures a == 2 && b == 3
  {
    hide Walk, Quot, Rem;
    var v := Layout(NumberedDisk, 1, 1, 2);
    NumberedChain(v);
    var volume := new Volume(v);
    var out := new u8[1];
    var _ := volume.ReadInternal(2, 0, 1, out, 0, true, 1);
    a := out[0];
    FirstByte(v, 2);
    assert out[..][0] == FileSlice(v, 2, 0, 1)[0];
    var _ := volume.ReadInternal(3, 0, 1, out, 0, true, 1);
    b := out[0];
    FirstByte(v, 3);
    assert out[..][0] == FileSlice(v, 3, 0, 1)[0];
  }

  lemma FirstByte(v: Layout, c: nat)
    requires v == Layout(NumberedDisk, 1, 1, 2) && 2 <= c <= 3
    ensures FileByte(v, c, 0) == c as u8
  {
    FileByteOnDisk(v, c, 0, 0, c, 512 * c);
  }

  lemma NextOfWalk(v: Layout, c: nat, k: nat)
    requires Reaches(v, c, k)
    ensures Walk(v, c, 0) == Some(c) && Walk(v, c, k + 1) == Next(v, Walk(v, c, k).value)
  {
  }

  lemma NumberedChain(v: Layout)
    requires v == Layout(NumberedDisk, 1, 1, 2)
    ensures ChainInVolume(v, 2) && ChainInVolume(v, 3) && ClusterSize(v) == 512
  {
    assert ByteAt(NumberedDisk, 516) == 3 && ByteAt(NumberedDisk, 517) == 0 && ByteAt(NumberedDisk, 518) == 4;
    assert ByteAt(NumberedDisk, 519) == 0 && ByteAt(NumberedDisk, 520) == 255 && ByteAt(NumberedDisk, 521) == 255;
    assert FatEntry(v, 2) == 3 && FatEntry(v, 3) == 4 && FatEntry(v, 4) == 0xFFFF;
    assert Next(v, 2) == Some(3) && Next(v, 3) == Some(4) && Next(v, 4) == None;
    hide Next, FatEntry;
    NextOfWalk(v, 2, 0);
    NextOfWalk(v, 2, 1);
    NextOfWalk(v, 2, 2);
    NextOfWalk(v, 3, 0);
    NextOfWalk(v, 3, 1);
    forall k: nat | Reaches(v, 2, k) ensures InVolume(v, Walk(v, 2, k).value) {
      if k >= 3 {
        ReachesBelow(v, 2, 3, k);
      }
    }
    forall k: nat | Reaches(v, 3, k) ensures InVolume(v, Walk(v, 3, k).value) {
      if k >= 2 {
        ReachesBelow(v, 3, 2, k);
      }
    }
  }

  lemma BytesStep(size: u32, n: nat)
    ensures Bytes(size, 0) == 0 && Bytes(size, n + 1) == Bytes(size, n) + size
  {
  }

  lemma BytesMonotone(size: u32, m: nat, n: nat)
    requires m <= n
    ensures Bytes(size, m) <= Bytes(size, n)
  {
  }

  lemma ClusterSizeBound(v: Layout)
    requires WellFormed(v)
    ensures ClusterSize(v) <= 255 * 512
  {
  }

  lemma SignedSize(size: u32)
    ensures Positive(size) ==> ToInt32(size) == size
    ensures !Positive(size) ==> ToInt32(size) <= 0
  {
  }

  lemma SignedPos(pos: u32)
    ensures Wrap(ToInt32(pos)) == Wrap(pos) && (pos < 0x8000_0000 ==> ToInt32(pos) == pos)
  {
  }

  lemma OffsetStep(offset: int, size: u32, to: int)
    requires Wrap(offset) == Wrap(to)
    ensures Wrap(ToInt32(offset + size)) == Wrap(to + size)
    ensures 0 <= offset + size < 0x8000_0000 ==> ToInt32(offset + size) == offset + size
  {
  }

  lemma OffsetWrap(offset: int)
    ensures Wrap(Wrap(offset)) == Wrap(offset)
  {
  }

  /** A cluster reached by the walk is a 16-bit number in the volume. */
  lemma ChainCluster(v: Layout, start: nat, k: nat, c: int)
    requires ChainInVolume(v, start) && (Walk(v, start, k) == Some(c) || c == start)
    ensures 0 <= c < 0x1_0000 && InVolume(v, c)
  {
    hide InVolume;
    if Walk(v, start, k) == Some(c) {
      WalkIs16Bit(v, start, k);
    } else {
      assert Reaches(v, start, 0);
    }
  }

  lemma NothingSliced(buf: seq<u8>, at: nat, v: Layout, start: nat, offset: nat)
    requires WellFormed(v) && at <= |buf|
    ensures Spliced(buf, at, FileSlice(v, start, offset, 0)) == buf
  {
  }

  lemma PieceFits(v: Layout, off: int, piece: int)
    requires WellFormed(v) && off >= 0 && piece <= ClusterSize(v) - off
    ensures ClusterOffset(v, off) + piece <= ClusterSize(v)
  {
    hide Quot, Rem, ClusterSize;
    if off < ClusterSize(v) {
      FirstCluster(v, off);
    }
  }

  lemma EntryIs16Bit(v: Layout, c: nat)
    ensures FatEntry(v, c) < 0x1_0000
  {
  }
}
