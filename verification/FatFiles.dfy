/** The read-only FAT reader (usbip/classes/host/extras/fatfs.py, class FatFs): table
    entries through a one-sector cache, cluster chains and file contents, over BlockDev. */
module FatFiles {
  import opened Bytes
  import opened BulkOnly
  import D = BlockDev

  datatype FatType = Fat12 | Fat16 | Fat32

  /** What _parse_bpb leaves in the object. */
  datatype Geometry = Geometry(fatType: FatType, bps: nat, spc: nat, fatStart: nat, firstDataSector: nat)

  ghost predicate ValidGeometry(g: Geometry) { g.bps > 0 && g.spc > 0 }

  /** The bytes this view can reach. */
  function Part(d: D.BlockDevice): bytes {
    Slice(d.unit.image, d.base, |d.unit.image|)
  }

  function EndOfChain(t: FatType): nat {
    match t case Fat12 => 0xFF8 case Fat16 => 0xFFF8 case Fat32 => 0x0FFFFFF8
  }

  predicate InChain(g: Geometry, cluster: nat) {
    2 <= cluster < EndOfChain(g.fatType)
  }

  // ---- table entries -----------------------------------------------------------

  function Width(t: FatType): nat { if t == Fat32 then 4 else 2 }

  function EntryOffset(g: Geometry, cluster: nat): nat {
    match g.fatType
    case Fat32 => g.fatStart + cluster * 4
    case Fat16 => g.fatStart + cluster * 2
    case Fat12 => g.fatStart + cluster + cluster / 2
  }

  /** The bits of the little-endian word that belong to the entry. */
  function Trim(t: FatType, cluster: nat, word: nat): nat {
    match t
    case Fat12 => if cluster % 2 == 1 then word / 16 else word % 4096
    case Fat16 => word
    case Fat32 => word % 0x10000000
  }

  predicate Crosses(g: Geometry, cluster: nat)
    requires g.bps > 0
  {
    EntryOffset(g, cluster) + Width(g.fatType) > Span(CountBlocks(EntryOffset(g, cluster), g.bps) + 1, g.bps)
  }

  /** _fat_entry without its cache: from the sector that holds the entry, or from a read of
      its own when the entry lies across two sectors. */
  function Entry(d: D.BlockDevice, g: Geometry, cluster: nat): Option<nat>
    requires d.unit.blockSize > 0 && g.bps > 0
  {
    var off, width := EntryOffset(g, cluster), Width(g.fatType);
    var sec := CountBlocks(off, g.bps);
    if Crosses(g, cluster) then
      match D.Read(d, off, width) {
        case None => None
        case Some(raw) => Some(Trim(g.fatType, cluster, FromLE(raw)))
      }
    else
      WholeBlocksFit(off, g.bps);
      match D.Read(d, Span(sec, g.bps), g.bps) {
        case None => None
        case Some(sector) =>
          var at := off - Span(sec, g.bps);
          Some(Trim(g.fatType, cluster, FromLE(Slice(sector, at, at + width))))
      }
  }

  /** Half a byte of the partition, low nibble first. */
  function Nibble(part: bytes, k: nat): nat
    requires k / 2 < |part|
  {
    if k % 2 == 0 then part[k / 2] % 16 else part[k / 2] / 16
  }

  predicate InTable(g: Geometry, part: bytes, cluster: nat) {
    EntryOffset(g, cluster) + Width(g.fatType) <= |part|
  }

  /** What a table entry is, by the format alone: FAT12 entry n is nibbles 3n to 3n + 2 of
      the table, FAT16 two bytes, FAT32 the low 28 bits of four. */
  function Decoded(g: Geometry, part: bytes, cluster: nat): nat
    requires InTable(g, part, cluster)
  {
    var at := g.fatStart;
    match g.fatType
    case Fat12 =>
      Nibble(part, 2 * at + 3 * cluster) + 16 * Nibble(part, 2 * at + 3 * cluster + 1)
      + 256 * Nibble(part, 2 * at + 3 * cluster + 2)
    case Fat16 => At(part, at + 2 * cluster) + 256 * At(part, at + 2 * cluster + 1)
    case Fat32 =>
      (At(part, at + 4 * cluster) + 256 * At(part, at + 4 * cluster + 1)
       + 65536 * At(part, at + 4 * cluster + 2) + 16777216 * At(part, at + 4 * cluster + 3)) % 0x10000000
  }

  lemma ReadIsPart(d: D.BlockDevice, offset: nat, length: nat)
    requires ValidUnit(d.unit) && length > 0 && D.Read(d, offset, length).Some?
    ensures offset + length <= |Part(d)|
    ensures D.Read(d, offset, length).value == Part(d)[offset..offset + length]
  {
    hide D.Read, D.Fetchable;
    D.ReadIsSlice(d, offset, length);
    D.SliceOfSlice(d.unit.image, d.base, |d.unit.image|, offset, length);
  }

  lemma DivMod(q: nat, r: nat, k: nat)
    requires k == 16 || k == 4096
    requires r < k
    ensures (k * q + r) / k == q && (k * q + r) % k == r
  {
  }

  lemma Nibbles(b0: nat, b1: nat)
    requires b0 < 256 && b1 < 256
    ensures (b0 + 256 * b1) % 4096 == b0 % 16 + 16 * (b0 / 16) + 256 * (b1 % 16)
    ensures (b0 + 256 * b1) / 16 == b0 / 16 + 16 * (b1 % 16) + 256 * (b1 / 16)
  {
    var h0, l0, h1, l1 := b0 / 16, b0 % 16, b1 / 16, b1 % 16;
    assert b0 == 16 * h0 + l0 && b1 == 16 * h1 + l1;
    DivMod(h1, b0 + 256 * l1, 4096);
    DivMod(h0 + 16 * b1, l0, 16);
  }

  lemma Fat12Decodes(g: Geometry, part: bytes, cluster: nat)
    requires g.fatType == Fat12 && InTable(g, part, cluster)
    ensures var off := EntryOffset(g, cluster);
      Trim(Fat12, cluster, At(part, off) + 256 * At(part, off + 1)) == Decoded(g, part, cluster)
  {
    hide Decoded;
    var off, half, k := EntryOffset(g, cluster), cluster / 2, 2 * g.fatStart + 3 * cluster;
    Nibbles(part[off], part[off + 1]);
    if cluster % 2 == 0 {
      assert cluster == 2 * half && k == 2 * off;
    } else {
      assert cluster == 2 * half + 1 && k == 2 * off + 1;
    }
    DecodedFat12(g, part, cluster, k);
  }

  lemma DecodedFat12(g: Geometry, part: bytes, cluster: nat, k: nat)
    requires g.fatType == Fat12 && k == 2 * g.fatStart + 3 * cluster && InTable(g, part, cluster)
    ensures (k + 2) / 2 < |part|
    ensures Decoded(g, part, cluster) == Nibble(part, k) + 16 * Nibble(part, k + 1) + 256 * Nibble(part, k + 2)
  {
  }

  lemma WordDecodes(g: Geometry, part: bytes, cluster: nat)
    requires InTable(g, part, cluster)
    ensures var off := EntryOffset(g, cluster);
      Trim(g.fatType, cluster, FromLE(part[off..off + Width(g.fatType)])) == Decoded(g, part, cluster)
  {
    hide Nibble, Slice;
    var off := EntryOffset(g, cluster);
    var raw := part[off..off + Width(g.fatType)];
    match g.fatType {
      case Fat16 => FromLE2(raw);
      case Fat32 => FromLE4(raw);
      case Fat12 =>
        FromLE2(raw);
        Fat12Decodes(g, part, cluster);
    }
  }

  /** The read an entry takes: its sector, or its own bytes when it lies across two. */
  predicate EntryFetchable(d: D.BlockDevice, g: Geometry, cluster: nat)
    requires d.unit.blockSize > 0 && g.bps > 0
  {
    if Crosses(g, cluster) then D.Fetchable(d, EntryOffset(g, cluster), Width(g.fatType))
    else D.Fetchable(d, Span(CountBlocks(EntryOffset(g, cluster), g.bps), g.bps), g.bps)
  }

  /** An entry can be read exactly when that read lies on the unit and fits one command, and then it is
      the decoded one, sector-crossing FAT12 entries included. */
  lemma EntryDecodes(d: D.BlockDevice, g: Geometry, cluster: nat)
    requires ValidUnit(d.unit) && g.bps > 0
    ensures Entry(d, g, cluster).Some? <==> EntryFetchable(d, g, cluster)
    ensures Entry(d, g, cluster).Some? ==>
              InTable(g, Part(d), cluster) && Entry(d, g, cluster).value == Decoded(g, Part(d), cluster)
  {
    hide D.Read, D.Fetchable, Part, Decoded, Trim, FromLE, Span, CountBlocks;
    var off, width := EntryOffset(g, cluster), Width(g.fatType);
    var sec := CountBlocks(off, g.bps);
    if Crosses(g, cluster) {
      D.ReadIsSlice(d, off, width);
    } else {
      D.ReadIsSlice(d, Span(sec, g.bps), g.bps);
    }
    if Entry(d, g, cluster).Some? {
      EntryValue(d, g, cluster);
    }
  }

  lemma EntryValue(d: D.BlockDevice, g: Geometry, cluster: nat)
    requires ValidUnit(d.unit) && g.bps > 0 && Entry(d, g, cluster).Some?
    ensures InTable(g, Part(d), cluster)
    ensures Entry(d, g, cluster).value == Decoded(g, Part(d), cluster)
  {
    hide D.Read, Part, Decoded, Trim, FromLE, Span, CountBlocks;
    var off, width := EntryOffset(g, cluster), Width(g.fatType);
    var sec := CountBlocks(off, g.bps);
    if Crosses(g, cluster) {
      ReadIsPart(d, off, width);
    } else {
      WholeBlocksFit(off, g.bps);
      SpanSucc(sec, g.bps);
      ReadIsPart(d, Span(sec, g.bps), g.bps);
      var start := Span(sec, g.bps);
      var sector := D.Read(d, start, g.bps).value;
      assert sector == Part(d)[start..start + g.bps];
      D.SliceOfSlice(Part(d), start, start + g.bps, off - start, width);
    }
    WordDecodes(g, Part(d), cluster);
  }

  // ---- chains --------------------------------------------------------------------

  /** The source stops a walk after this many clusters. */
  const CHAIN_LIMIT: nat := 0x1000001

  /** At most `left` clusters from `cluster` on, following the table. */
  function Walk(d: D.BlockDevice, g: Geometry, cluster: nat, left: nat): Option<seq<nat>>
    requires d.unit.blockSize > 0 && g.bps > 0
    decreases left
  {
    if left == 0 || !InChain(g, cluster) then Some([])
    else
      match Entry(d, g, cluster)
      case None => None
      case Some(next) =>
        match Walk(d, g, next, left - 1)
        case None => None
        case Some(rest) => Some([cluster] + rest)
  }

  /** `cs` is a whole chain by the table alone: it starts at `cluster`, every link is the decoded entry,
      and the last link leaves the range of clusters. */
  predicate IsChain(g: Geometry, part: bytes, cluster: nat, cs: seq<nat>)
    decreases |cs|
  {
    if cs == [] then !InChain(g, cluster)
    else
      && cs[0] == cluster && InChain(g, cluster)
      && InTable(g, part, cluster) && IsChain(g, part, Decoded(g, part, cluster), cs[1..])
  }

  /** The first `n` entries of the chain can be read. */
  predicate EntriesFetchable(d: D.BlockDevice, g: Geometry, cs: seq<nat>, n: nat)
    requires d.unit.blockSize > 0 && g.bps > 0
  {
    forall i :: 0 <= i < |cs| && i < n ==> EntryFetchable(d, g, cs[i])
  }

  function UpTo(cs: seq<nat>, n: nat): seq<nat> {
    if |cs| <= n then cs else cs[..n]
  }

  /** A walk whose entries can be read finds the table's chain up to the limit: a longer chain is
      silently cut there. */
  lemma {:induction false} WalkFindsChain(d: D.BlockDevice, g: Geometry, cluster: nat, cs: seq<nat>, left: nat)
    requires ValidUnit(d.unit) && g.bps > 0 && IsChain(g, Part(d), cluster, cs)
    ensures Walk(d, g, cluster, left) == if EntriesFetchable(d, g, cs, left) then Some(UpTo(cs, left)) else None
    decreases left
  {
    hide Entry, InChain, Decoded, Part, EntryFetchable, InTable;
    if left > 0 && cs != [] {
      EntryDecodes(d, g, cluster);
      if Entry(d, g, cluster).Some? {
        var rest := cs[1..];
        WalkFindsChain(d, g, Entry(d, g, cluster).value, rest, left - 1);
        FetchableCons(d, g, cs, left);
        UpToCons(cs, left);
      } else {
        assert !EntryFetchable(d, g, cs[0]);
      }
    }
  }

  lemma FetchableCons(d: D.BlockDevice, g: Geometry, cs: seq<nat>, n: nat)
    requires d.unit.blockSize > 0 && g.bps > 0 && cs != [] && n > 0
    ensures EntriesFetchable(d, g, cs, n) <==> EntryFetchable(d, g, cs[0]) && EntriesFetchable(d, g, cs[1..], n - 1)
  {
    hide EntryFetchable;
    var rest := cs[1..];
    if EntriesFetchable(d, g, cs, n) {
      forall i | 0 <= i < |rest| && i < n - 1
        ensures EntryFetchable(d, g, rest[i])
      {
        assert rest[i] == cs[i + 1];
      }
    }
    if EntryFetchable(d, g, cs[0]) && EntriesFetchable(d, g, rest, n - 1) {
      forall i | 0 <= i < |cs| && i < n
        ensures EntryFetchable(d, g, cs[i])
      {
        assert i > 0 ==> cs[i] == rest[i - 1];
      }
    }
  }

  lemma UpToCons(cs: seq<nat>, n: nat)
    requires cs != [] && n > 0
    ensures UpTo(cs, n) == [cs[0]] + UpTo(cs[1..], n - 1)
  {
  }

  lemma {:induction false} ChainUnique(g: Geometry, part: bytes, cluster: nat, a: seq<nat>, b: seq<nat>)
    requires IsChain(g, part, cluster, a) && IsChain(g, part, cluster, b)
    ensures a == b
    decreases |a|
  {
    hide Decoded, InChain, InTable;
    if a != [] && b != [] {
      ChainUnique(g, part, Decoded(g, part, cluster), a[1..], b[1..]);
      assert a == [a[0]] + a[1..] && b == [b[0]] + b[1..];
    }
  }

  lemma {:induction false} ChainSuffix(g: Geometry, part: bytes, cluster: nat, cs: seq<nat>, i: nat)
    requires IsChain(g, part, cluster, cs) && i < |cs|
    ensures IsChain(g, part, cs[i], cs[i..]) && InChain(g, cs[i])
    decreases i
  {
    hide Decoded, InChain, InTable;
    if i > 0 {
      ChainSuffix(g, part, Decoded(g, part, cluster), cs[1..], i - 1);
      assert cs[1..][i - 1..] == cs[i..];
    } else {
      assert cs[0..] == cs;
    }
  }

  /** A whole chain visits no cluster twice. */
  lemma ChainsAreAcyclic(g: Geometry, part: bytes, cluster: nat, cs: seq<nat>, i: nat, j: nat)
    requires IsChain(g, part, cluster, cs) && i < j < |cs|
    ensures cs[i] != cs[j]
  {
    if cs[i] == cs[j] {
      ChainSuffix(g, part, cluster, cs, i);
      ChainSuffix(g, part, cluster, cs, j);
      ChainUnique(g, part, cs[i], cs[i..], cs[j..]);
    }
  }

  function Below(n: nat): (s: set<nat>)
    ensures |s| == n
    ensures forall x: nat :: x in s <==> x < n
  {
    if n == 0 then {} else Below(n - 1) + {n - 1}
  }

  function Elements(cs: seq<nat>): (s: set<nat>)
    ensures forall x :: x in s ==> exists i :: 0 <= i < |cs| && cs[i] == x
  {
    if cs == [] then {} else Elements(cs[..|cs| - 1]) + {cs[|cs| - 1]}
  }

  lemma {:induction false} DistinctElements(cs: seq<nat>)
    requires forall i, j :: 0 <= i < j < |cs| ==> cs[i] != cs[j]
    ensures |Elements(cs)| == |cs|
  {
    if cs != [] {
      var front, last := cs[..|cs| - 1], cs[|cs| - 1];
      DistinctElements(front);
      assert last !in Elements(front);
    }
  }

  lemma {:induction false} SubsetIsSmaller(a: set<nat>, b: set<nat>)
    requires a <= b
    ensures |a| <= |b|
    decreases a
  {
    if x :| x in a {
      SubsetIsSmaller(a - {x}, b - {x});
    }
  }

  /** A chain has fewer clusters than there are cluster numbers. */
  lemma ChainIsBounded(g: Geometry, part: bytes, cluster: nat, cs: seq<nat>)
    requires IsChain(g, part, cluster, cs)
    ensures |cs| <= EndOfChain(g.fatType)
  {
    hide Decoded, InTable, IsChain;
    forall i, j | 0 <= i < j < |cs|
      ensures cs[i] != cs[j]
    {
      ChainsAreAcyclic(g, part, cluster, cs, i, j);
    }
    forall i | 0 <= i < |cs|
      ensures cs[i] < EndOfChain(g.fatType)
    {
      ChainSuffix(g, part, cluster, cs, i);
    }
    DistinctElements(cs);
    SubsetIsSmaller(Elements(cs), Below(EndOfChain(g.fatType)));
  }

  // ---- files -----------------------------------------------------------------------

  function ClusterSize(g: Geometry): nat { Span(g.spc, g.bps) }

  function ClusterOffset(g: Geometry, cluster: nat): nat
    requires cluster >= 2
  {
    Span(g.firstDataSector + Span(cluster - 2, g.spc), g.bps)
  }

  function ReadCluster(d: D.BlockDevice, g: Geometry, cluster: nat): Option<bytes>
    requires d.unit.blockSize > 0 && cluster >= 2
  {
    D.Read(d, ClusterOffset(g, cluster), ClusterSize(g))
  }

  /** Reading cluster by cluster, stopping once `size` bytes are there. */
  function ReadUpTo(d: D.BlockDevice, g: Geometry, cs: seq<nat>, data: bytes, size: nat): Option<bytes>
    requires d.unit.blockSize > 0 && forall i :: 0 <= i < |cs| ==> cs[i] >= 2
    decreases |cs|
  {
    if cs == [] then Some(Slice(data, 0, size))
    else
      match ReadCluster(d, g, cs[0])
      case None => None
      case Some(chunk) =>
        if |data + chunk| >= size then Some(Slice(data + chunk, 0, size))
        else ReadUpTo(d, g, cs[1..], data + chunk, size)
  }

  /** The whole of read_file for a directory entry with this first cluster and size. */
  function FileRead(d: D.BlockDevice, g: Geometry, first: nat, size: nat): Option<bytes>
    requires d.unit.blockSize > 0 && g.bps > 0
  {
    match Walk(d, g, first, CHAIN_LIMIT)
    case None => None
    case Some(cs) =>
      WalkStaysInRange(d, g, first, CHAIN_LIMIT);
      ReadUpTo(d, g, cs, [], size)
  }

  lemma {:induction false} WalkStaysInRange(d: D.BlockDevice, g: Geometry, cluster: nat, left: nat)
    requires d.unit.blockSize > 0 && g.bps > 0 && Walk(d, g, cluster, left).Some?
    ensures var cs := Walk(d, g, cluster, left).value; forall i :: 0 <= i < |cs| ==> InChain(g, cs[i])
    decreases left
  {
    hide Entry, InChain;
    if left > 0 && InChain(g, cluster) {
      WalkStaysInRange(d, g, Entry(d, g, cluster).value, left - 1);
    }
  }

  predicate InPartition(g: Geometry, part: bytes, cluster: nat) {
    cluster >= 2 && ClusterOffset(g, cluster) + ClusterSize(g) <= |part|
  }

  predicate AllInPartition(g: Geometry, part: bytes, cs: seq<nat>) {
    forall i :: 0 <= i < |cs| ==> InPartition(g, part, cs[i])
  }

  function ClusterAt(g: Geometry, part: bytes, cluster: nat): (r: bytes)
    requires InPartition(g, part, cluster)
    ensures |r| == ClusterSize(g)
  {
    part[ClusterOffset(g, cluster)..ClusterOffset(g, cluster) + ClusterSize(g)]
  }

  /** The clusters' slices of the partition, laid end to end. */
  function ClusterBytes(g: Geometry, part: bytes, cs: seq<nat>): (r: bytes)
    requires AllInPartition(g, part, cs)
    ensures |r| == Span(|cs|, ClusterSize(g))
  {
    if cs == [] then [] else ClusterAt(g, part, cs[0]) + ClusterBytes(g, part, cs[1..])
  }

  /** How many of `len` clusters the loop reads to bring `have` bytes up to `size`: at least the first. */
  function NeededCount(g: Geometry, len: nat, have: nat, size: nat): (n: nat)
    ensures n <= len
    ensures n < len ==> have + Span(n, ClusterSize(g)) >= size
    decreases len
  {
    if len == 0 then 0
    else if have + ClusterSize(g) >= size then
      assert Span(1, ClusterSize(g)) == ClusterSize(g);
      1
    else
      var n := NeededCount(g, len - 1, have + ClusterSize(g), size);
      SpanAdd(1, n, ClusterSize(g));
      1 + n
  }

  /** That is the size in clusters, rounded up, or all there are. */
  lemma {:induction false} NeededIsCeiling(g: Geometry, len: nat, have: nat, size: nat)
    requires ClusterSize(g) > 0 && len > 0
    ensures var most := if size <= have then 1 else CountBlocks(size - have - 1, ClusterSize(g)) + 1;
            NeededCount(g, len, have, size) == if len <= most then len else most
    decreases len
  {
    hide ClusterSize;
    if have + ClusterSize(g) < size && len > 1 {
      NeededIsCeiling(g, len - 1, have + ClusterSize(g), size);
    }
  }

  /** The first `n` clusters can be read. */
  predicate ClustersFetchable(d: D.BlockDevice, g: Geometry, cs: seq<nat>, n: nat)
    requires d.unit.blockSize > 0 && ClusterSize(g) > 0
  {
    forall i :: 0 <= i < |cs| && i < n ==> cs[i] >= 2 && D.Fetchable(d, ClusterOffset(g, cs[i]), ClusterSize(g))
  }

  /** A cluster is its slice of the partition, exactly when one command can fetch it. */
  lemma ClusterIsSlice(d: D.BlockDevice, g: Geometry, cluster: nat)
    requires ValidUnit(d.unit) && ClusterSize(g) > 0 && cluster >= 2
    ensures ReadCluster(d, g, cluster).Some? <==> D.Fetchable(d, ClusterOffset(g, cluster), ClusterSize(g))
    ensures ReadCluster(d, g, cluster).Some? ==>
              && InPartition(g, Part(d), cluster)
              && ReadCluster(d, g, cluster).value == ClusterAt(g, Part(d), cluster)
  {
    hide D.Read, D.Fetchable, ClusterOffset, ClusterSize, Part;
    D.ReadIsSlice(d, ClusterOffset(g, cluster), ClusterSize(g));
    if ReadCluster(d, g, cluster).Some? {
      ReadIsPart(d, ClusterOffset(g, cluster), ClusterSize(g));
    }
  }

  /** Stopping early changes nothing: what is read is the first `size` bytes of the clusters needed for
      them, laid end to end, exactly when these can be read. */
  lemma {:induction false} EarlyExitIsPrefix(d: D.BlockDevice, g: Geometry, cs: seq<nat>, data: bytes, size: nat)
    requires ValidUnit(d.unit) && ClusterSize(g) > 0
    requires forall i :: 0 <= i < |cs| ==> cs[i] >= 2
    ensures var n := NeededCount(g, |cs|, |data|, size);
            && (ReadUpTo(d, g, cs, data, size).Some? <==> ClustersFetchable(d, g, cs, n))
            && (ReadUpTo(d, g, cs, data, size).Some? ==>
                  && AllInPartition(g, Part(d), cs[..n])
                  && ReadUpTo(d, g, cs, data, size).value == Slice(data + ClusterBytes(g, Part(d), cs[..n]), 0, size))
    decreases |cs|
  {
    hide ReadCluster, D.Fetchable, ClusterOffset, ClusterSize, ClusterAt, Part, InPartition, Slice;
    if cs == [] {
      assert data + [] == data;
    } else {
      ClusterIsSlice(d, g, cs[0]);
      var n := NeededCount(g, |cs|, |data|, size);
      if ReadCluster(d, g, cs[0]).Some? {
        var chunk := ReadCluster(d, g, cs[0]).value;
        assert cs[..n][0] == cs[0] && cs[..n][1..] == cs[1..][..n - 1];
        if |data + chunk| >= size {
          assert chunk + [] == chunk;
        } else {
          EarlyExitIsPrefix(d, g, cs[1..], data + chunk, size);
          ClustersCons(d, g, cs, n);
          if ClustersFetchable(d, g, cs, n) {
            PartitionCons(g, Part(d), cs[..n]);
            Assoc(data, chunk, ClusterBytes(g, Part(d), cs[..n][1..]));
          }
        }
      }
    }
  }

  lemma ClustersCons(d: D.BlockDevice, g: Geometry, cs: seq<nat>, n: nat)
    requires d.unit.blockSize > 0 && ClusterSize(g) > 0 && cs != [] && n > 0
    ensures ClustersFetchable(d, g, cs, n)
       <==> && cs[0] >= 2 && D.Fetchable(d, ClusterOffset(g, cs[0]), ClusterSize(g))
            && ClustersFetchable(d, g, cs[1..], n - 1)
  {
    hide D.Fetchable, ClusterOffset, ClusterSize;
    var rest := cs[1..];
    if ClustersFetchable(d, g, cs, n) {
      forall i | 0 <= i < |rest| && i < n - 1
        ensures rest[i] >= 2 && D.Fetchable(d, ClusterOffset(g, rest[i]), ClusterSize(g))
      {
        assert rest[i] == cs[i + 1];
      }
    }
    if cs[0] >= 2 && D.Fetchable(d, ClusterOffset(g, cs[0]), ClusterSize(g)) && ClustersFetchable(d, g, rest, n - 1) {
      forall i | 0 <= i < |cs| && i < n
        ensures cs[i] >= 2 && D.Fetchable(d, ClusterOffset(g, cs[i]), ClusterSize(g))
      {
        assert i > 0 ==> cs[i] == rest[i - 1];
      }
    }
  }

  lemma PartitionCons(g: Geometry, part: bytes, cs: seq<nat>)
    requires cs != [] && InPartition(g, part, cs[0]) && AllInPartition(g, part, cs[1..])
    ensures AllInPartition(g, part, cs)
    ensures ClusterBytes(g, part, cs) == ClusterAt(g, part, cs[0]) + ClusterBytes(g, part, cs[1..])
  {
    hide InPartition, ClusterAt;
  }

  /** Where a chain cut at the limit still gives the file: it was not cut, or the file ends before the cut. */
  predicate CutIsHarmless(g: Geometry, cs: seq<nat>, size: nat) {
    |cs| <= CHAIN_LIMIT || size <= Span(CHAIN_LIMIT, ClusterSize(g))
  }

  lemma CutLength(g: Geometry, cs: seq<nat>, size: nat)
    requires ClusterSize(g) > 0
    ensures var found := UpTo(cs, CHAIN_LIMIT);
            && Min(size, Span(NeededCount(g, |found|, 0, size), ClusterSize(g)))
                == Min(size, Span(|found|, ClusterSize(g)))
            && (Min(size, Span(|found|, ClusterSize(g))) == Min(size, Span(|cs|, ClusterSize(g)))
                <==> CutIsHarmless(g, cs, size))
  {
    hide ClusterSize;
    var found := UpTo(cs, CHAIN_LIMIT);
    SpanMonotone(NeededCount(g, |found|, 0, size), |found|, ClusterSize(g));
    if |cs| > CHAIN_LIMIT {
      SpanMonotone(CHAIN_LIMIT + 1, |cs|, ClusterSize(g));
      SpanSucc(CHAIN_LIMIT, ClusterSize(g));
    }
  }

  /**
   * What read_file promises, for the chain the table has. The file can be read exactly when the chain's
   * entries and the clusters its size needs can be; what comes back are the first `size` bytes of those
   * clusters' slices of the partition; and none are missing exactly when the chain is no longer than the
   * limit or the file ends before the cut.
   */
  lemma FileIsSlices(d: D.BlockDevice, g: Geometry, first: nat, size: nat, cs: seq<nat>)
    requires ValidUnit(d.unit) && ValidGeometry(g) && IsChain(g, Part(d), first, cs)
    ensures ClusterSize(g) > 0
    ensures var found := UpTo(cs, CHAIN_LIMIT);
            var n := NeededCount(g, |found|, 0, size);
            var r := FileRead(d, g, first, size);
            && (r.Some? <==> EntriesFetchable(d, g, cs, CHAIN_LIMIT) && ClustersFetchable(d, g, cs, n))
            && (r.Some? ==> AllInPartition(g, Part(d), cs[..n])
                            && r.value == Slice(ClusterBytes(g, Part(d), cs[..n]), 0, size))
            && (r.Some? ==> (|r.value| == Min(size, Span(|cs|, ClusterSize(g))) <==> CutIsHarmless(g, cs, size)))
  {
    hide Entry, ReadCluster, Part, ClusterOffset, ClusterSize, InTable, Decoded, EntriesFetchable, Walk, ReadUpTo,
         IsChain, CutIsHarmless, NeededCount, InPartition, D.Fetchable, ClusterAt;
    SizePositive(g);
    WalkFindsChain(d, g, first, cs, CHAIN_LIMIT);
    var found := UpTo(cs, CHAIN_LIMIT);
    var n := NeededCount(g, |found|, 0, size);
    assert found[..n] == cs[..n];
    assert ClustersFetchable(d, g, cs, n) <==> ClustersFetchable(d, g, found, n);
    if EntriesFetchable(d, g, cs, CHAIN_LIMIT) {
      ChainStartsAtTwo(g, Part(d), first, cs);
      CutLength(g, cs, size);
      EarlyExitIsPrefix(d, g, found, [], size);
      if FileRead(d, g, first, size).Some? {
        assert [] + ClusterBytes(g, Part(d), found[..n]) == ClusterBytes(g, Part(d), found[..n]);
      }
    }
  }

  lemma SizePositive(g: Geometry)
    requires ValidGeometry(g)
    ensures ClusterSize(g) > 0
  {
    SpanMonotone(1, g.spc, g.bps);
  }

  lemma ChainStartsAtTwo(g: Geometry, part: bytes, first: nat, cs: seq<nat>)
    requires IsChain(g, part, first, cs)
    ensures forall i :: 0 <= i < |cs| ==> cs[i] >= 2
  {
    hide IsChain;
    forall i | 0 <= i < |cs|
      ensures cs[i] >= 2
    {
      ChainSuffix(g, part, first, cs, i);
    }
  }

  /** On FAT12 and FAT16 no chain reaches the limit: a file that can be read is never short. */
  lemma SmallTablesReadWhole(d: D.BlockDevice, g: Geometry, first: nat, size: nat, cs: seq<nat>)
    requires ValidUnit(d.unit) && ValidGeometry(g) && g.fatType != Fat32 && IsChain(g, Part(d), first, cs)
    ensures |cs| <= CHAIN_LIMIT
    ensures FileRead(d, g, first, size).Some? ==>
              |FileRead(d, g, first, size).value| == Min(size, Span(|cs|, ClusterSize(g)))
  {
    hide FileRead, IsChain, ClusterBytes, Part;
    ChainIsBounded(g, Part(d), first, cs);
    FileIsSlices(d, g, first, size, cs);
  }

  // ---- the object --------------------------------------------------------------------

  class FatFs {
    const dev: D.BlockDevice
    const g: Geometry
    var cacheSec: int
    var cache: bytes

    /** The cached sector is what reading it now would give. */
    ghost predicate Valid()
      reads this
    {
      && ValidUnit(dev.unit) && ValidGeometry(g)
      && (cacheSec >= 0 ==> D.Read(dev, Span(cacheSec, g.bps), g.bps) == Some(cache))
    }

    constructor (dev: D.BlockDevice, g: Geometry)
      requires ValidUnit(dev.unit) && ValidGeometry(g)
      ensures Valid() && this.dev == dev && this.g == g
    {
      this.dev, this.g := dev, g;
      cacheSec, cache := -1, [];
    }

    /** The cache is transparent: the entry is the one read afresh. */
    method FatEntry(cluster: nat) returns (val: Option<nat>)
      requires Valid()
      modifies this`cacheSec, this`cache
      ensures Valid() && val == Entry(dev, g, cluster)
    {
      hide D.Read, Trim, FromLE;
      var off, width := EntryOffset(g, cluster), Width(g.fatType);
      CountBlocksIsQuotient(off, g.bps);
      WholeBlocksFit(off, g.bps);
      var sec := CountBlocks(off, g.bps);
      var word: nat;
      if off + width <= Span(sec + 1, g.bps) {
        if sec != cacheSec {
          var sector := D.Read(dev, Span(sec, g.bps), g.bps);
          if sector.None? {
            return None;
          }
          cache, cacheSec := sector.value, sec;
        }
        var at := off - Span(sec, g.bps);
        word := FromLE(Slice(cache, at, at + width));
      } else {
        var raw := D.Read(dev, off, width);
        if raw.None? {
          return None;
        }
        word := FromLE(raw.value);
      }
      val := Some(Trim(g.fatType, cluster, word));
    }

    /** Always terminates, whatever the table says. */
    method Chain(start: nat) returns (out: Option<seq<nat>>)
      requires Valid()
      modifies this`cacheSec, this`cache
      ensures Valid() && out == Walk(dev, g, start, CHAIN_LIMIT)
    {
      hide Entry, InChain, D.Read;
      var cs, cluster, guard := [], start, 0;
      ghost var whole := Walk(dev, g, start, CHAIN_LIMIT);
      assert whole.Some? ==> [] + whole.value == whole.value;
      while InChain(g, cluster) && guard < CHAIN_LIMIT
        invariant Valid() && guard <= CHAIN_LIMIT
        invariant match Walk(dev, g, cluster, CHAIN_LIMIT - guard) {
            case None => whole == None
            case Some(rest) => whole == Some(cs + rest)
          }
        decreases CHAIN_LIMIT - guard
      {
        var next := FatEntry(cluster);
        if next.None? {
          return None;
        }
        ghost var rest := Walk(dev, g, next.value, CHAIN_LIMIT - guard - 1);
        if rest.Some? {
          Assoc(cs, [cluster], rest.value);
        }
        cs := cs + [cluster];
        cluster, guard := next.value, guard + 1;
      }
      assert cs + [] == cs;
      out := Some(cs);
    }

    /** read_file of a directory entry with this first cluster and size. */
    method ReadFile(firstCluster: nat, size: nat) returns (r: Option<bytes>)
      requires Valid()
      modifies this`cacheSec, this`cache
      ensures Valid() && r == FileRead(dev, g, firstCluster, size)
    {
      hide ReadCluster, Entry;
      var chain := Chain(firstCluster);
      if chain.None? {
        return None;
      }
      WalkStaysInRange(dev, g, firstCluster, CHAIN_LIMIT);
      var cs, data, i := chain.value, [], 0;
      while i < |cs|
        invariant 0 <= i <= |cs| && Valid() && forall k :: 0 <= k < |cs| ==> cs[k] >= 2
        invariant ReadUpTo(dev, g, cs, [], size) == ReadUpTo(dev, g, cs[i..], data, size)
      {
        assert cs[i..][0] == cs[i] && cs[i..][1..] == cs[i + 1..];
        var chunk := ReadCluster(dev, g, cs[i]);
        if chunk.None? {
          return None;
        }
        data := data + chunk.value;
        if |data| >= size {
          return Some(Slice(data, 0, size));
        }
        i := i + 1;
      }
      r := Some(Slice(data, 0, size));
    }
  }
}
