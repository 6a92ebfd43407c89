/** Where a FAT volume keeps things (usbip/classes/host/extras/fatfs.py, FatFs._parse_bpb): what opening it makes of the
    boot sector's fields, at their byte offsets, and so where the tables, the root directory and every cluster lie. */
module FatLayout {
  import opened Bytes
  import opened BulkOnly
  import D = BlockDev
  import opened FatFiles
  import opened FatVolume

  /** Two and four bytes, least significant first. */
  function LE16(b: bytes, at: nat): nat
    requires at + 2 <= |b|
  {
    At(b, at) + 256 * At(b, at + 1)
  }

  function LE32(b: bytes, at: nat): nat
    requires at + 4 <= |b|
  {
    At(b, at) + 256 * At(b, at + 1) + 65536 * At(b, at + 2) + 16777216 * At(b, at + 3)
  }

  lemma FieldsRead(b: bytes, at: nat)
    ensures at + 2 <= |b| ==> U16(b, at) == LE16(b, at)
    ensures at + 4 <= |b| ==> U32(b, at) == LE32(b, at)
  {
    hide FromLE;
    if at + 2 <= |b| {
      FromLE2(b[at..at + 2]);
    }
    if at + 4 <= |b| {
      FromLE4(b[at..at + 4]);
    }
  }

  /** The boot sector's fields. */
  datatype Boot = Boot(bps: nat, spc: nat, reserved: nat, tables: nat,
                       rootEntries: nat, sectors: nat, tableSectors: nat)

  function BootOf(b: bytes): Boot
    requires |b| == 512
  {
    Boot(LE16(b, 11), At(b, 13), LE16(b, 14), At(b, 16), LE16(b, 17),
         if LE16(b, 19) != 0 then LE16(b, 19) else LE32(b, 32),
         if LE16(b, 22) != 0 then LE16(b, 22) else LE32(b, 36))
  }

  /** The sectors of the root directory: just enough for 32 bytes an entry. */
  predicate HoldRoot(f: Boot, rootSectors: nat) {
    rootSectors * f.bps >= 32 * f.rootEntries && (rootSectors - 1) * f.bps < 32 * f.rootEntries
  }

  /** What is left for clusters, counted in whole ones. */
  predicate Clusters(f: Boot, dataStart: nat, clusters: int) {
    clusters * f.spc <= f.sectors - dataStart < (clusters + 1) * f.spc
  }

  /**
   * The volume from its start: the reserved sectors, the tables one after another, the root directory, the data area.
   * The format goes by the number of clusters.
   */
  ghost predicate LaidOut(f: Boot, g: Geometry) {
    && f.bps > 0 && f.spc > 0 && g.bps == f.bps && g.spc == f.spc
    && g.fatStart == f.reserved * f.bps
    && (exists rootSectors: nat ::
          HoldRoot(f, rootSectors) && g.firstDataSector == f.reserved + f.tables * f.tableSectors + rootSectors)
    && (exists clusters: int ::
          && Clusters(f, g.firstDataSector, clusters)
          && (g.fatType == Fat12 <==> clusters < 4085)
          && (g.fatType == Fat16 <==> 4085 <= clusters < 65525)
          && (g.fatType == Fat32 <==> 65525 <= clusters))
  }

  lemma FloorOf(n: int, d: nat) returns (q: int)
    requires d > 0
    ensures q == n / d && q * d <= n < (q + 1) * d
  {
    q := n / d;
    assert n == d * q + n % d;
  }

  lemma RoundedUp(bytes_: nat, bps: nat)
    requires bps > 0
    ensures var n := CountBlocks(bytes_ + bps - 1, bps); n * bps >= bytes_ && (n - 1) * bps < bytes_
  {
    var n := CountBlocks(bytes_ + bps - 1, bps);
    WholeBlocksFit(bytes_ + bps - 1, bps);
    SpanIsProduct(n, bps);
    assert (n - 1) * bps == n * bps - bps;
  }

  function DataStart(f: Boot): nat
    requires f.bps > 0
  {
    Product(f.tables, f.tableSectors) + f.reserved + CountBlocks(f.rootEntries * 32 + f.bps - 1, f.bps)
  }

  function Product(a: nat, b: nat): nat { a * b }

  lemma ParsedFields(sector: bytes)
    requires |sector| == 512
    ensures var f := BootOf(sector);
            match ParseBpb(sector)
            case None => f.bps == 0 || f.spc == 0
            case Some(g) =>
              && f.bps > 0 && f.spc > 0
              && g == Geometry(TypeFor((f.sectors - DataStart(f)) / f.spc), f.bps, f.spc,
                               Product(f.reserved, f.bps), DataStart(f))
  {
    hide U16, U32, LE16, LE32, CountBlocks, TypeFor, Span;
    FieldsRead(sector, 11);
    FieldsRead(sector, 14);
    FieldsRead(sector, 17);
    FieldsRead(sector, 19);
    FieldsRead(sector, 22);
    FieldsRead(sector, 32);
    FieldsRead(sector, 36);
    var f := BootOf(sector);
    SpanIsProduct(f.tables, f.tableSectors);
    SpanIsProduct(f.reserved, f.bps);
  }

  /** A boot sector without sector or cluster size is refused; any other gives the layout of its fields. */
  lemma ParsedIsLaidOut(sector: bytes)
    requires |sector| == 512
    ensures ParseBpb(sector).None? <==> BootOf(sector).bps == 0 || BootOf(sector).spc == 0
    ensures ParseBpb(sector).Some? ==> LaidOut(BootOf(sector), ParseBpb(sector).value)
  {
    hide BootOf, ParseBpb, CountBlocks;
    ParsedFields(sector);
    if ParseBpb(sector).Some? {
      var f, g := BootOf(sector), ParseBpb(sector).value;
      var rootSectors := CountBlocks(f.rootEntries * 32 + f.bps - 1, f.bps);
      RoundedUp(f.rootEntries * 32, f.bps);
      assert HoldRoot(f, rootSectors);
      var clusters := FloorOf(f.sectors - g.firstDataSector, f.spc);
      assert Clusters(f, g.firstDataSector, clusters);
    }
  }

  // ---- where the volume is on its disk ---------------------------------------------------

  /** The partition entry: type, first sector and size. */
  predicate FatPartition(b: bytes, k: nat)
    requires |b| == 512 && k < 4
  {
    At(b, 446 + 16 * k + 4) in {1, 4, 6, 11, 12, 14} && LE32(b, 446 + 16 * k + 12) != 0
  }

  predicate BareVolume(b: bytes)
    requires |b| == 512
  {
    || b[54..58] == [0x46, 0x41, 0x54, 0x31]          // "FAT1"
    || b[82..87] == [0x46, 0x41, 0x54, 0x33, 0x32]    // "FAT32"
    || b[510..512] != [0x55, 0xAA]
  }

  lemma {:induction false} PartitionsScanned(b: bytes, i: nat)
    requires |b| == 512 && i <= 4
    ensures match FirstPartition(b, i)
            case None => forall k: nat :: i <= k < 4 ==> !FatPartition(b, k)
            case Some(base) => exists k: nat ::
              && i <= k < 4 && FatPartition(b, k) && base == 512 * LE32(b, 446 + 16 * k + 8)
              && forall j: nat :: i <= j < k ==> !FatPartition(b, j)
    decreases 4 - i
  {
    hide U32, LE32;
    if i < 4 {
      FieldsRead(b, 446 + 16 * i + 8);
      FieldsRead(b, 446 + 16 * i + 12);
      if !FatPartition(b, i) {
        PartitionsScanned(b, i + 1);
      }
    }
  }

  /** A bare volume starts at 0; on a disk with a partition table it is the first FAT partition of any size, and
      without one the disk is refused. */
  lemma BaseIsFirstPartition(b: bytes)
    requires |b| == 512
    ensures BareVolume(b) ==> VolumeBase(b) == Some(0)
    ensures !BareVolume(b) ==>
              match VolumeBase(b)
              case None => forall k: nat :: k < 4 ==> !FatPartition(b, k)
              case Some(base) => exists k: nat ::
                && k < 4 && FatPartition(b, k) && base == 512 * LE32(b, 446 + 16 * k + 8)
                && forall j: nat :: j < k ==> !FatPartition(b, j)
  {
    hide FatPartition, LE32, FirstPartition;
    PartitionsScanned(b, 0);
    assert b[510..512] == [b[510], b[511]];
  }

  // ---- where its clusters are ---------------------------------------------------------------

  /** Clusters are numbered from 2 and lie one after another from the data area's start. */
  lemma ClusterPlaces(g: Geometry, cluster: nat)
    requires cluster >= 2
    ensures ClusterOffset(g, cluster) == (g.firstDataSector + (cluster - 2) * g.spc) * g.bps
    ensures ClusterSize(g) == g.spc * g.bps
    ensures ClusterOffset(g, 2) == g.firstDataSector * g.bps
    ensures ClusterOffset(g, cluster + 1) == ClusterOffset(g, cluster) + ClusterSize(g)
  {
    hide Span;
    var start := Span(cluster - 2, g.spc);
    SpanIsProduct(cluster - 2, g.spc);
    SpanIsProduct(g.firstDataSector + start, g.bps);
    SpanIsProduct(0, g.spc);
    SpanIsProduct(g.firstDataSector, g.bps);
    SpanIsProduct(g.spc, g.bps);
    SpanSucc(cluster - 2, g.spc);
    SpanAdd(g.firstDataSector + start, g.spc, g.bps);
    assert g.firstDataSector + (start + g.spc) == (g.firstDataSector + start) + g.spc;
    assert cluster + 1 - 2 == cluster - 2 + 1;
  }

  /** Which entries go on to another cluster: FAT12 ends at 0xFF8, FAT16 at 0xFFF8, FAT32 at 0x0FFFFFF8, and 0 and 1 are
      no clusters. */
  lemma ChainGoesOn(g: Geometry, cluster: nat)
    ensures InChain(g, cluster) <==>
              2 <= cluster <= (if g.fatType == Fat12 then 4087 else if g.fatType == Fat16 then 65527 else 268435447)
  {
  }

  /** The volume's first 512 bytes. */
  function BootSector(v: D.BlockDevice): bytes {
    Slice(Part(v), 0, 512)
  }

  /** So every volume the reader opens is laid out as its boot sector says, from where it starts on the disk. */
  lemma OpenedIsLaidOut(d: D.BlockDevice)
    requires ValidUnit(d.unit) && Open(d).Some?
    ensures var (v, g) := Open(d).value;
            && |BootSector(v)| == 512 && LaidOut(BootOf(BootSector(v)), g)
            && |BootSector(d)| == 512 && VolumeBase(BootSector(d)).Some?
            && v == d.(base := d.base + VolumeBase(BootSector(d)).value)
  {
    hide D.Read, D.Fetchable, LaidOut, ParseBpb, VolumeBase, BootOf, Part;
    var sec0 := ReadBoot(d).value;
    ReadIsPart(d, 0, 512);
    var v := D.View(d, VolumeBase(sec0).value);
    var sector := ReadBoot(v).value;
    ReadIsPart(v, 0, 512);
    ParsedIsLaidOut(sector);
  }

  // ---- a floppy disk --------------------------------------------------------------------

  /** The boot sector of a 1.44 MB floppy: 512-byte sectors, one reserved, two tables of nine, 224 root entries,
      2880 sectors in all. */
  function FloppyByte(i: nat): byte {
    match i
    case 12 => 2      // 0x0200 bytes a sector
    case 13 => 1
    case 14 => 1
    case 16 => 2
    case 17 => 224
    case 19 => 0x40   // 0x0B40 sectors
    case 20 => 0x0B
    case 22 => 9
    case 54 => 0x46   // "FAT12"
    case 55 => 0x41
    case 56 => 0x54
    case 57 => 0x31
    case 58 => 0x32
    case _ => 0
  }

  function Floppy(): D.BlockDevice {
    D.BlockDevice(Unit(seq(2880 * 512, i requires 0 <= i => FloppyByte(i)), 512, 2880, true, false, SENSE_OK,
                       Tables([], map[], [], map[], map[], [], [])), 0)
  }

  lemma FloppyParses(sector: bytes)
    requires |sector| == 512 && forall i :: 0 <= i < 512 ==> sector[i] == FloppyByte(i)
    ensures BareVolume(sector) && BootOf(sector) == Boot(512, 1, 1, 2, 224, 2880, 9)
    ensures ParseBpb(sector) == Some(Geometry(Fat12, 512, 1, 512, 33))
  {
    hide ParseBpb;
    assert sector[54..58] == [0x46, 0x41, 0x54, 0x31];
    assert BootOf(sector) == Boot(512, 1, 1, 2, 224, 2880, 9);
    ParsedFields(sector);
    CountBlocksIsQuotient(224 * 32 + 512 - 1, 512);
  }

  /** The reader opens it as FAT12 with the data area at sector 33, so cluster 2 is at byte 16896. */
  lemma FloppyOpens()
    ensures ValidUnit(Floppy().unit) && Open(Floppy()) == Some((Floppy(), Geometry(Fat12, 512, 1, 512, 33)))
    ensures ClusterOffset(Geometry(Fat12, 512, 1, 512, 33), 2) == 16896
  {
    hide ParseBpb, VolumeBase, D.Read, BootOf, D.Fetchable, BareVolume, FloppyByte, ClusterOffset;
    var d := Floppy();
    SpanIsProduct(2880, 512);
    FloppyFetchable();
    D.ReadIsSlice(d, 0, 512);
    var sector := d.unit.image[0..512];
    FloppyParses(sector);
    BaseIsFirstPartition(sector);
    assert ReadBoot(d) == Some(sector) && D.View(d, 0) == d;
    ClusterPlaces(Geometry(Fat12, 512, 1, 512, 33), 2);
  }

  lemma FloppyFetchable()
    ensures D.Fetchable(Floppy(), 0, 512)
  {
    hide CountBlocks;
    CountBlocksIsQuotient(0, 512);
    CountBlocksIsQuotient(511, 512);
    assert Span(1, 512) == 512 && Pow256(2) == 65536;
    assert Pow256(4) == 0x1_0000_0000;
  }
}
