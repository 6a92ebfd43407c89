/** Opening a FAT volume (usbip/classes/host/extras/fatfs.py, FatFs.__init__): the boot sector, the first FAT partition
    of a partitioned disk, and what the sizes a directory can record mean for reading files. */
module FatVolume {
  import opened Bytes
  import opened BulkOnly
  import D = BlockDev
  import opened FatFiles

  const BOOT: nat := 512

  function U8(b: bytes, off: nat): nat
    requires off < |b|
  {
    b[off]
  }

  function U16(b: bytes, off: nat): nat {
    FromLE(Slice(b, off, off + 2))
  }

  function U32(b: bytes, off: nat): nat {
    FromLE(Slice(b, off, off + 4))
  }

  function OrElse(a: nat, b: nat): nat {
    if a != 0 then a else b
  }

  function TypeFor(clusters: int): FatType {
    if clusters < 4085 then Fat12 else if clusters < 65525 then Fat16 else Fat32
  }

  /** _parse_bpb; None where it raises. */
  function ParseBpb(sector: bytes): Option<Geometry>
    requires |sector| == BOOT
  {
    var bps, spc := U16(sector, 0x0B), U8(sector, 0x0D);
    if bps == 0 || spc == 0 then None
    else
      var rsvd, nfat, rootEntries := U16(sector, 0x0E), U8(sector, 0x10), U16(sector, 0x11);
      var total := OrElse(U16(sector, 0x13), U32(sector, 0x20));
      var fatSize := OrElse(U16(sector, 0x16), U32(sector, 0x24));
      var rootSectors := CountBlocks(rootEntries * 32 + bps - 1, bps);
      var firstData := rsvd + Span(nfat, fatSize) + rootSectors;
      Some(Geometry(TypeFor((total - firstData) / spc), bps, spc, Span(rsvd, bps), firstData))
  }

  predicate IsBpb(sector: bytes) {
    Slice(sector, 0x36, 0x3A) == [0x46, 0x41, 0x54, 0x31] || Slice(sector, 0x52, 0x57) == [0x46, 0x41, 0x54, 0x33, 0x32]
  }

  const FAT_PART_TYPES: set<nat> := {0x01, 0x04, 0x06, 0x0B, 0x0C, 0x0E}

  /** The byte offset of the first FAT partition from entry `i` on; None where the source raises. */
  function FirstPartition(sector: bytes, i: nat): Option<nat>
    requires |sector| == BOOT && i <= 4
    decreases 4 - i
  {
    if i == 4 then None
    else
      var at := 446 + i * 16;
      if U8(sector, at + 4) in FAT_PART_TYPES && U32(sector, at + 12) != 0 then Some(U32(sector, at + 8) * 512)
      else FirstPartition(sector, i + 1)
  }

  /** Where the volume starts: 0 for a bare one and for a disk with no signature, else the partition. */
  function VolumeBase(sector: bytes): Option<nat>
    requires |sector| == BOOT
  {
    if !IsBpb(sector) && sector[510] == 0x55 && sector[511] == 0xAA then FirstPartition(sector, 0) else Some(0)
  }

  function ReadBoot(d: D.BlockDevice): (r: Option<bytes>)
    requires ValidUnit(d.unit)
    ensures r.Some? ==> |r.value| == BOOT
  {
    D.ReadIsSlice(d, 0, BOOT);
    D.Read(d, 0, BOOT)
  }

  /** The constructor: the view files are read through and its geometry. */
  function Open(d: D.BlockDevice): Option<(D.BlockDevice, Geometry)>
    requires ValidUnit(d.unit)
  {
    match ReadBoot(d)
    case None => None
    case Some(sec0) =>
      match VolumeBase(sec0)
      case None => None
      case Some(base) =>
        match ReadBoot(D.View(d, base))
        case None => None
        case Some(sector) =>
          match ParseBpb(sector)
          case None => None
          case Some(g) => Some((D.View(d, base), g))
  }

  lemma {:induction false} FromLEBound(b: bytes)
    ensures FromLE(b) < Pow256(|b|)
  {
    if b != [] {
      FromLEBound(b[1..]);
    }
  }

  /** What an opened volume guarantees to every file read on it. */
  lemma OpenedIsValid(d: D.BlockDevice)
    requires ValidUnit(d.unit)
    ensures Open(d).Some? ==>
              var (v, g) := Open(d).value;
              v.unit == d.unit && d.base <= v.base && ValidGeometry(g) && g.bps < Pow256(2) && g.spc < Pow256(1)
  {
    hide D.Read, Slice, FromLE, VolumeBase;
    if Open(d).Some? {
      var base := VolumeBase(ReadBoot(d).value).value;
      var sector := ReadBoot(D.View(d, base)).value;
      assert Slice(sector, 0x0B, 0x0B + 2) == sector[0x0B..0x0B + 2];
      FromLEBound(sector[0x0B..0x0B + 2]);
      assert Pow256(1) == 256;
    }
  }

  // ---- sizes a directory can record ---------------------------------------------------

  /** The size field of a directory entry. */
  function RecordedSize(raw: bytes): nat {
    U32(raw, 28)
  }

  predicate Recordable(size: nat) {
    size < Pow256(4)
  }

  lemma RecordedIsRecordable(raw: bytes)
    requires |raw| == 32
    ensures RecordedSize(raw)
         == At(raw, 28) + 256 * At(raw, 29) + 65536 * At(raw, 30) + 16777216 * At(raw, 31)
    ensures Recordable(RecordedSize(raw))
  {
    hide FromLE;
    FromLEBound(raw[28..32]);
    FromLE4(raw[28..32]);
  }

  /** A size that reaches past the cut can be recorded exactly when clusters have fewer than 256 bytes. */
  lemma CutWithinReach(clusterSize: nat)
    ensures (exists size: nat :: Recordable(size) && size > Span(CHAIN_LIMIT, clusterSize)) <==> clusterSize < 256
  {
    hide Span;
    assert Pow256(4) == 0x1_0000_0000;
    SpanIsProduct(CHAIN_LIMIT, clusterSize);
    if clusterSize < 256 {
      assert Span(CHAIN_LIMIT, clusterSize) <= CHAIN_LIMIT * 255;
      assert Recordable(0xFFFF_FFFF) && 0xFFFF_FFFF > Span(CHAIN_LIMIT, clusterSize);
    } else {
      assert Span(CHAIN_LIMIT, clusterSize) >= CHAIN_LIMIT * 256;
    }
  }

  lemma BigClustersAreHarmless(g: Geometry, cs: seq<nat>, size: nat)
    requires Recordable(size) && ClusterSize(g) >= 256
    ensures CutIsHarmless(g, cs, size)
  {
    hide Span, Pow256, ClusterSize;
    CutWithinReach(ClusterSize(g));
  }

  /**
   * A file of a size a directory can record, through any chain: what is read are its first `size` bytes, and none
   * is missing exactly when the chain is within the limit, clusters have at least 256 bytes, or the file ends
   * before the cut.
   */
  lemma RecordedFile(d: D.BlockDevice, g: Geometry, first: nat, size: nat, cs: seq<nat>)
    requires ValidUnit(d.unit) && ValidGeometry(g) && IsChain(g, Part(d), first, cs) && Recordable(size)
    ensures var n := NeededCount(g, |UpTo(cs, CHAIN_LIMIT)|, 0, size);
            var r := FileRead(d, g, first, size);
            r.Some? ==>
              && AllInPartition(g, Part(d), cs[..n])
              && r.value == Slice(ClusterBytes(g, Part(d), cs[..n]), 0, size)
              && (|r.value| == Min(size, Span(|cs|, ClusterSize(g))) <==>
                    || |cs| <= CHAIN_LIMIT
                    || ClusterSize(g) >= 256
                    || size <= Span(CHAIN_LIMIT, ClusterSize(g)))
  {
    hide FileRead, IsChain, ClusterBytes, Part, AllInPartition, Recordable, Span, ClusterSize;
    FileIsSlices(d, g, first, size, cs);
    if ClusterSize(g) >= 256 {
      BigClustersAreHarmless(g, cs, size);
    }
  }

  /** So on every volume whose sectors have at least 256 bytes, no file that can be read is ever short. */
  lemma FilesAreWhole(d: D.BlockDevice, g: Geometry, first: nat, size: nat, cs: seq<nat>)
    requires ValidUnit(d.unit) && ValidGeometry(g) && IsChain(g, Part(d), first, cs) && Recordable(size)
    requires g.bps >= 256
    ensures FileRead(d, g, first, size).Some? ==>
              |FileRead(d, g, first, size).value| == Min(size, Span(|cs|, ClusterSize(g)))
  {
    hide FileRead, IsChain, ClusterBytes, Part, AllInPartition, Recordable, Span;
    RecordedFile(d, g, first, size, cs);
    SpanMonotone(1, g.spc, g.bps);
    assert Span(1, g.bps) == g.bps by {
      SpanIsProduct(1, g.bps);
    }
  }
}
