/** A FAT32 volume of 128-byte sectors holding one file as long as wanted, and where its reader loses the end of it. */
module FatCutChain {
  import opened Bytes
  import opened BulkOnly
  import D = BlockDev
  import opened FatFiles
  import opened FatVolume

  const SECTOR: nat := 128
  /** The boot sector's 512 bytes take four sectors. */
  const RESERVED: nat := 4
  const FIRST: nat := 2
  const LAST_MARK: nat := 0x0FFFFFFF

  /** Enough clusters for FAT32, and no more than a recordable size can fill. */
  predicate Holds(n: nat) {
    65525 <= n <= 0x1FFFFFF
  }

  /** The entries of a table whose one chain is 2, 3, ..., n + 1. */
  function Link(n: nat, cluster: nat): nat {
    if cluster <= n then cluster + 1 else LAST_MARK
  }

  function ByteOf(v: nat, k: nat): byte {
    (if k == 0 then v else if k == 1 then v / 256 else if k == 2 then v / 65536 else v / 16777216) % 256
  }

  /** The reserved sectors, the table, then a sector for every cluster. */
  function TableSectors(n: nat): nat { (n + 2) / 32 + 1 }

  function NumSectors(n: nat): nat { RESERVED + TableSectors(n) + n }

  /** Sector size, cluster size, reserved sectors, one table, the two 32-bit sizes, and the signature. */
  function BootByte(n: nat, i: nat): byte {
    if i == 0x0B then SECTOR
    else if i == 0x0D then 1
    else if i == 0x0E then RESERVED
    else if i == 0x10 then 1
    else if 0x20 <= i < 0x24 then ByteOf(NumSectors(n), i - 0x20)
    else if 0x24 <= i < 0x28 then ByteOf(TableSectors(n), i - 0x24)
    else if 0x52 <= i < 0x57 then [0x46, 0x41, 0x54, 0x33, 0x32][i - 0x52]
    else 0
  }

  function VolumeByte(n: nat, i: nat): byte {
    if i < BOOT then BootByte(n, i) else ByteOf(Link(n, (i - BOOT) / 4), (i - BOOT) % 4)
  }

  function Volume(n: nat): D.BlockDevice {
    var image := seq(NumSectors(n) * SECTOR, i requires 0 <= i => VolumeByte(n, i));
    D.BlockDevice(Unit(image, SECTOR, NumSectors(n), true, false, SENSE_OK,
                       Tables([], map[], [], map[], map[], [], [])), 0)
  }

  function Layout(n: nat): Geometry {
    Geometry(Fat32, SECTOR, 1, BOOT, RESERVED + TableSectors(n))
  }

  function Clusters(from: nat, n: nat): (cs: seq<nat>)
    ensures |cs| == n
    ensures forall i :: 0 <= i < n ==> cs[i] == from + i
  {
    seq(n, i => from + i)
  }

  lemma BytesMakeWord(v: nat)
    requires v < 0x10000000
    ensures ByteOf(v, 0) + 256 * ByteOf(v, 1) + 65536 * ByteOf(v, 2) + 16777216 * ByteOf(v, 3) == v
  {
    var a, b, c := v / 256, v / 65536, v / 16777216;
    assert v == 256 * a + v % 256 && a == 256 * b + a % 256 && b == 256 * c + b % 256;
  }

  lemma VolumeIsValid(n: nat)
    requires Holds(n)
    ensures ValidUnit(Volume(n).unit) && ValidGeometry(Layout(n))
    ensures Part(Volume(n)) == Volume(n).unit.image && |Volume(n).unit.image| == NumSectors(n) * SECTOR
    ensures Pow256(4) == 0x100000000
  {
    SpanIsProduct(NumSectors(n), SECTOR);
    assert Pow256(4) == 0x100000000;
  }

  lemma BootWord(n: nat, sector: bytes, off: nat, v: nat)
    requires |sector| == BOOT && off + 4 <= BOOT && v < 0x10000000
    requires forall k :: 0 <= k < 4 ==> sector[off + k] == ByteOf(v, k)
    ensures U32(sector, off) == v
  {
    hide ByteOf, FromLE;
    var raw := sector[off..off + 4];
    FromLE4(raw);
    assert raw[0] == sector[off + 0] && raw[1] == sector[off + 1];
    assert raw[2] == sector[off + 2] && raw[3] == sector[off + 3];
    BytesMakeWord(v);
  }

  lemma BootHalf(sector: bytes, off: nat, lo: byte)
    requires |sector| == BOOT && off + 2 <= BOOT && sector[off] == lo && sector[off + 1] == 0
    ensures U16(sector, off) == lo
  {
    hide FromLE;
    FromLE2(sector[off..off + 2]);
  }

  /** The boot sector parses to the layout. */
  lemma BootParses(n: nat, sector: bytes)
    requires Holds(n) && |sector| == BOOT && forall i :: 0 <= i < BOOT ==> sector[i] == BootByte(n, i)
    ensures IsBpb(sector) && ParseBpb(sector) == Some(Layout(n))
  {
    hide ByteOf, U16, U32;
    BootHalf(sector, 0x0B, SECTOR);
    BootHalf(sector, 0x0E, RESERVED);
    BootHalf(sector, 0x11, 0);
    BootHalf(sector, 0x13, 0);
    BootHalf(sector, 0x16, 0);
    BootWord(n, sector, 0x20, NumSectors(n));
    BootWord(n, sector, 0x24, TableSectors(n));
    SpanIsProduct(RESERVED, SECTOR);
    SpanIsProduct(1, TableSectors(n));
    assert sector[0x52..0x57] == [0x46, 0x41, 0x54, 0x33, 0x32];
  }

  /** The reader opens this volume, with this layout. */
  lemma VolumeOpens(n: nat)
    requires Holds(n)
    ensures ValidUnit(Volume(n).unit) && Open(Volume(n)) == Some((Volume(n), Layout(n)))
  {
    hide ParseBpb, IsBpb, BootByte, D.Read, D.Fetchable;
    VolumeIsValid(n);
    var d := Volume(n);
    BootFetchable(n);
    D.ReadIsSlice(d, 0, BOOT);
    var sector := d.unit.image[0..BOOT];
    BootParses(n, sector);
    assert ReadBoot(d) == Some(sector) && D.View(d, 0) == d;
  }

  lemma BootFetchable(n: nat)
    requires Holds(n)
    ensures D.Fetchable(Volume(n), 0, BOOT)
  {
    hide CountBlocks;
    VolumeIsValid(n);
    CountWhole(0, 0, SECTOR);
    CountWhole(3, SECTOR - 1, SECTOR);
    SpanIsProduct(3, SECTOR);
    SpanIsProduct(4, SECTOR);
    assert Pow256(2) == 65536;
  }

  lemma TableFits(n: nat, cluster: nat)
    requires cluster <= n + 1
    ensures BOOT + 4 * cluster + 4 <= NumSectors(n) * SECTOR
  {
    assert SECTOR * TableSectors(n) >= 4 * (n + 2);
  }

  lemma PartByte(n: nat, cluster: nat, k: nat)
    requires Holds(n) && cluster <= n + 1 && k < 4
    ensures BOOT + 4 * cluster + k < |Part(Volume(n))|
    ensures At(Part(Volume(n)), BOOT + 4 * cluster + k) == ByteOf(Link(n, cluster), k)
  {
    hide ByteOf, Link, Part, NumSectors;
    VolumeIsValid(n);
    TableFits(n, cluster);
    assert (4 * cluster + k) / 4 == cluster && (4 * cluster + k) % 4 == k;
    assert Volume(n).unit.image[BOOT + 4 * cluster + k] == VolumeByte(n, BOOT + 4 * cluster + k);
  }

  lemma LinkIsDecoded(n: nat, cluster: nat)
    requires Holds(n) && cluster <= n + 1
    ensures InTable(Layout(n), Part(Volume(n)), cluster)
    ensures Decoded(Layout(n), Part(Volume(n)), cluster) == Link(n, cluster)
  {
    hide Part, Volume, ByteOf, At;
    PartByte(n, cluster, 0);
    PartByte(n, cluster, 1);
    PartByte(n, cluster, 2);
    PartByte(n, cluster, 3);
    BytesMakeWord(Link(n, cluster));
  }

  lemma {:induction false} TailIsChain(n: nat, cluster: nat)
    requires Holds(n) && FIRST <= cluster <= n + 2
    ensures IsChain(Layout(n), Part(Volume(n)), if cluster == n + 2 then LAST_MARK else cluster,
                    Clusters(cluster, n + 2 - cluster))
    decreases n + 2 - cluster
  {
    hide Part, Decoded, InTable, Volume;
    if cluster < n + 2 {
      TailIsChain(n, cluster + 1);
      LinkIsDecoded(n, cluster);
      assert Clusters(cluster, n + 2 - cluster)[1..] == Clusters(cluster + 1, n + 1 - cluster);
    }
  }

  lemma {:induction false} CountWhole(k: nat, r: nat, size: nat)
    requires r < size
    ensures CountBlocks(Span(k, size) + r, size) == k
  {
    if k > 0 {
      CountWhole(k - 1, r, size);
      SpanSucc(k - 1, size);
    }
  }

  /** Every single sector of the volume can be read. */
  lemma SectorFetchable(n: nat, sector: nat)
    requires Holds(n) && sector < NumSectors(n)
    ensures D.Fetchable(Volume(n), Span(sector, SECTOR), SECTOR)
  {
    hide CountBlocks;
    VolumeIsValid(n);
    CountWhole(sector, 0, SECTOR);
    CountWhole(sector, SECTOR - 1, SECTOR);
    assert Pow256(2) == 65536;
    assert Span(1, SECTOR) == SECTOR;
  }

  lemma AllFetchable(n: nat, cluster: nat)
    requires Holds(n) && FIRST <= cluster <= n + 1
    ensures EntryFetchable(Volume(n), Layout(n), cluster)
    ensures ClusterSize(Layout(n)) == SECTOR
    ensures D.Fetchable(Volume(n), ClusterOffset(Layout(n), cluster), SECTOR)
  {
    hide D.Fetchable, CountBlocks;
    var g, off := Layout(n), BOOT + 4 * cluster;
    var sector := off / SECTOR;
    CountBlocksIsQuotient(off, SECTOR);
    SpanIsProduct(sector + 1, SECTOR);
    assert EntryOffset(g, cluster) == off;
    assert off + 4 <= (sector + 1) * SECTOR;
    assert sector < RESERVED + TableSectors(n);
    SectorFetchable(n, sector);
    SpanIsProduct(cluster - 2, 1);
    SectorFetchable(n, RESERVED + TableSectors(n) + (cluster - 2));
    assert Span(1, SECTOR) == SECTOR;
  }

  lemma SliceLength(b: bytes, n: nat)
    ensures |Slice(b, 0, n)| == Min(n, |b|)
  {
  }

  /**
   * On this volume, which the reader opens, a file of any recordable number of whole clusters comes back whole
   * up to CHAIN_LIMIT clusters, and from there on as its first CHAIN_LIMIT clusters with no error.
   */
  lemma LongFileIsCut(n: nat)
    requires Holds(n)
    ensures ValidUnit(Volume(n).unit) && Open(Volume(n)) == Some((Volume(n), Layout(n)))
    ensures ValidGeometry(Layout(n)) && Recordable(Span(n, SECTOR))
    ensures IsChain(Layout(n), Part(Volume(n)), FIRST, Clusters(FIRST, n))
    ensures Walk(Volume(n), Layout(n), FIRST, CHAIN_LIMIT) == Some(Clusters(FIRST, Min(n, CHAIN_LIMIT)))
    ensures var r := FileRead(Volume(n), Layout(n), FIRST, Span(n, SECTOR));
            r.Some? && |r.value| == Span(Min(n, CHAIN_LIMIT), SECTOR)
  {
    hide Volume, EntryFetchable, D.Fetchable, Part, IsChain, FileRead, Walk, Span, Open;
    VolumeIsValid(n);
    VolumeOpens(n);
    SpanIsProduct(n, SECTOR);
    var d, g, cs := Volume(n), Layout(n), Clusters(FIRST, n);
    TailIsChain(n, FIRST);
    forall i | 0 <= i < n
      ensures EntryFetchable(d, g, cs[i])
      ensures ClusterSize(g) == SECTOR && D.Fetchable(d, ClusterOffset(g, cs[i]), ClusterSize(g))
    {
      AllFetchable(n, cs[i]);
    }
    WalkFindsChain(d, g, FIRST, cs, CHAIN_LIMIT);
    assert UpTo(cs, CHAIN_LIMIT) == Clusters(FIRST, Min(n, CHAIN_LIMIT));
    FileIsSlices(d, g, FIRST, Span(n, SECTOR), cs);
    CutLength(g, cs, Span(n, SECTOR));
    SpanMonotone(Min(n, CHAIN_LIMIT), n, SECTOR);
    assert EntriesFetchable(d, g, cs, CHAIN_LIMIT);
    assert ClusterSize(g) == SECTOR && g.spc == 1 by {
      AllFetchable(n, FIRST);
    }
    var most := NeededCount(g, |UpTo(cs, CHAIN_LIMIT)|, 0, Span(n, SECTOR));
    assert ClustersFetchable(d, g, cs, most);
    assert FileRead(d, g, FIRST, Span(n, SECTOR)).Some?;
    SliceLength(ClusterBytes(g, Part(d), cs[..most]), Span(n, SECTOR));
  }

  /** So the code can return less than a file holds: 128-byte sectors, one cluster more than the limit, and a
      size of 2^31 + 256 bytes. */
  lemma FileComesBackShort()
    ensures var n := CHAIN_LIMIT + 1;
            var size := 0x8000_0100;
            && ValidUnit(Volume(n).unit) && Open(Volume(n)) == Some((Volume(n), Layout(n)))
            && Recordable(size) && size == Span(n, SECTOR)
            && IsChain(Layout(n), Part(Volume(n)), FIRST, Clusters(FIRST, n))
            && var r := FileRead(Volume(n), Layout(n), FIRST, size);
            r.Some? && |r.value| == size - SECTOR
  {
    hide Volume, Layout, Part, IsChain, FileRead, Walk, Span, Clusters, Open, Recordable;
    LongFileIsCut(CHAIN_LIMIT + 1);
    SpanIsProduct(CHAIN_LIMIT + 1, SECTOR);
    SpanIsProduct(CHAIN_LIMIT, SECTOR);
  }
}
