/** Whole file reads through the mass-storage stack: the FAT reader of FatFiles with every block read sent as a
    command by the host driver to the device, the system threaded from one read to the next. */
module FatStack {
  import opened Bytes
  import opened BulkOnly
  import opened BulkOnlyHost
  import BlockStack
  import D = BlockDev
  import opened FatFiles

  /** A system that waits for the next command, with room for `commands` more tags. */
  ghost predicate Idle(s: Sys, commands: nat) {
    Quiescent(s) && AllValid(s.dev.units) && s.tag + commands < Pow256(4)
  }

  /** At most `commands` commands later: idle again, and every unit as it was, sense data included. */
  ghost predicate Kept(s: Sys, s': Sys, commands: nat) {
    Quiescent(s') && s'.dev.units == s.dev.units && s.tag <= s'.tag <= s.tag + commands
  }

  ghost function Disk(s: Sys, base: nat): D.BlockDevice
    requires s.dev.units != []
  {
    D.BlockDevice(s.dev.units[0], base)
  }

  // ---- reads -----------------------------------------------------------------------

  function FetchBlocks(s: Sys, lba: nat, count: nat): (r: (Sys, Option<bytes>))
    requires ValidDev(s.dev)
    ensures ValidDev(r.0.dev)
  {
    var (s', r) := BlockStack.ReadBlocks(s, lba, count, s.dev.units[0].blockSize, 0);
    (s', if r.Read? then Some(r.data) else None)
  }

  /** BlockDevice.read. */
  function Fetch(s: Sys, base: nat, offset: nat, length: nat): (r: (Sys, Option<bytes>))
    requires ValidDev(s.dev)
    ensures ValidDev(r.0.dev)
  {
    if length == 0 then (s, Some([]))
    else
      assert ValidUnit(s.dev.units[0]);
      var size, at := s.dev.units[0].blockSize, offset + base;
      var first, last := CountBlocks(at, size), CountBlocks(at + length - 1, size);
      D.CountBlocksOrdered(at, at + length - 1, size);
      WholeBlocksFit(at, size);
      var (s', chunk) := FetchBlocks(s, first, last - first + 1);
      match chunk
      case None => (s', None)
      case Some(data) => (s', Some(Slice(data, at - Span(first, size), at - Span(first, size) + length)))
  }

  lemma OversizeFails(s: Sys, lba: nat, count: nat)
    requires ValidDev(s.dev) && BlockStack.Cdb10Fits(lba, count)
    requires Span(count, s.dev.units[0].blockSize) >= Pow256(4)
    ensures FetchBlocks(s, lba, count).1 == None
  {
    hide Span, Pow256;
  }

  lemma FetchBlocksIsRead(s: Sys, lba: nat, count: nat)
    requires Idle(s, 1)
    ensures var (s', r) := FetchBlocks(s, lba, count);
            r == D.ReadBlocks(s.dev.units[0], lba, count) && (r.Some? ==> Kept(s, s', 1))
  {
    hide Span, Pow256, BlockStack.ReadBlocks, BlockStack.Cdb10Fits, AllValid, Quiescent, Blocks, ValidDev,
         BlockStack.ReadMeaning;
    UnitsExist(s);
    if !BlockStack.Cdb10Fits(lba, count) {
      TooBigFails(s, lba, count);
    } else if Span(count, s.dev.units[0].blockSize) >= Pow256(4) {
      OversizeFails(s, lba, count);
    } else {
      D.StackReadsBlocks(s, lba, count);
      BlockStack.ReadBlocksIsSlice(s, lba, count, 0);
    }
  }

  lemma UnitsExist(s: Sys)
    requires Quiescent(s)
    ensures ValidDev(s.dev) && s.dev.units != [] && ValidUnit(s.dev.units[0])
  {
  }

  lemma TooBigFails(s: Sys, lba: nat, count: nat)
    requires ValidDev(s.dev) && !BlockStack.Cdb10Fits(lba, count)
    ensures FetchBlocks(s, lba, count).1 == None
  {
  }

  lemma FetchIsRead(s: Sys, base: nat, offset: nat, length: nat)
    requires Idle(s, 1)
    ensures ValidDev(s.dev) && s.dev.units != [] && ValidUnit(s.dev.units[0])
    ensures var (s', r) := Fetch(s, base, offset, length);
            r == D.Read(Disk(s, base), offset, length) && (r.Some? ==> Kept(s, s', 1))
  {
    hide FetchBlocks, D.ReadBlocks, Span, CountBlocks, Slice, Pow256, Quiescent, AllValid;
    UnitsExist(s);
    if length > 0 {
      var size, at := s.dev.units[0].blockSize, offset + base;
      D.CountBlocksOrdered(at, at + length - 1, size);
      FetchBlocksIsRead(s, CountBlocks(at, size), CountBlocks(at + length - 1, size) - CountBlocks(at, size) + 1);
    }
  }

  lemma StaysIdle(s: Sys, s': Sys, used: nat, left: nat)
    requires Idle(s, used + left) && Kept(s, s', used)
    ensures Idle(s', left)
  {
  }

  // ---- table entries through the cache --------------------------------------------------

  datatype Reader = Reader(sys: Sys, cacheSec: int, cache: bytes)

  /** The cached sector is what reading it now would give. */
  ghost predicate CacheHolds(r: Reader, base: nat, g: Geometry)
    requires r.sys.dev.units != [] && r.sys.dev.units[0].blockSize > 0
  {
    r.cacheSec >= 0 ==> D.Read(Disk(r.sys, base), Span(r.cacheSec, g.bps), g.bps) == Some(r.cache)
  }

  ghost predicate Sound(r: Reader, base: nat, g: Geometry, commands: nat) {
    && Idle(r.sys, commands) && g.bps > 0
    && (UnitsExist(r.sys); CacheHolds(r, base, g))
  }

  function FetchEntry(r: Reader, base: nat, g: Geometry, cluster: nat): (out: (Reader, Option<nat>))
    requires ValidDev(r.sys.dev) && g.bps > 0
    ensures ValidDev(out.0.sys.dev)
  {
    var off, width := EntryOffset(g, cluster), Width(g.fatType);
    var sec := CountBlocks(off, g.bps);
    if Crosses(g, cluster) then
      var (s', raw) := Fetch(r.sys, base, off, width);
      (r.(sys := s'), if raw.None? then None else Some(Trim(g.fatType, cluster, FromLE(raw.value))))
    else
      WholeBlocksFit(off, g.bps);
      var at := off - Span(sec, g.bps);
      if sec == r.cacheSec then (r, Some(Trim(g.fatType, cluster, FromLE(Slice(r.cache, at, at + width)))))
      else
        var (s', sector) := Fetch(r.sys, base, Span(sec, g.bps), g.bps);
        match sector
        case None => (r.(sys := s'), None)
        case Some(raw) => (Reader(s', sec, raw), Some(Trim(g.fatType, cluster, FromLE(Slice(raw, at, at + width)))))
  }

  lemma FetchEntryIsEntry(r: Reader, base: nat, g: Geometry, cluster: nat, left: nat)
    requires Sound(r, base, g, left + 1)
    ensures ValidDev(r.sys.dev) && r.sys.dev.units[0].blockSize > 0
    ensures var (r', e) := FetchEntry(r, base, g, cluster);
            && e == Entry(Disk(r.sys, base), g, cluster)
            && (e.Some? ==> Kept(r.sys, r'.sys, 1) && Sound(r', base, g, left))
  {
    hide Fetch, D.Read, Crosses, Trim, FromLE, Slice, Span, CountBlocks, Pow256, AllValid, Quiescent;
    UnitsExist(r.sys);
    var off, sec := EntryOffset(g, cluster), CountBlocks(EntryOffset(g, cluster), g.bps);
    if Crosses(g, cluster) {
      FetchIsRead(r.sys, base, off, Width(g.fatType));
    } else {
      WholeBlocksFit(off, g.bps);
      FetchIsRead(r.sys, base, Span(sec, g.bps), g.bps);
    }
  }

  /** Entries that lie in one sector cost one read of it: the second sends no command. */
  lemma SameSectorIsFree(r: Reader, base: nat, g: Geometry, one: nat, other: nat)
    requires ValidDev(r.sys.dev) && g.bps > 0 && !Crosses(g, one) && !Crosses(g, other)
    requires EntryOffset(g, one) / g.bps == EntryOffset(g, other) / g.bps
    ensures var (r1, e) := FetchEntry(r, base, g, one);
            e.Some? ==> FetchEntry(r1, base, g, other).0 == r1
  {
    hide Fetch, Crosses, Trim, FromLE, Slice, Span, CountBlocks, EntryOffset;
    CountBlocksIsQuotient(EntryOffset(g, one), g.bps);
    CountBlocksIsQuotient(EntryOffset(g, other), g.bps);
  }

  // ---- chains and files -----------------------------------------------------------------

  function FetchChain(r: Reader, base: nat, g: Geometry, cluster: nat, left: nat): (out: (Reader, Option<seq<nat>>))
    requires ValidDev(r.sys.dev) && g.bps > 0
    ensures ValidDev(out.0.sys.dev)
    ensures out.1.Some? ==> forall i :: 0 <= i < |out.1.value| ==> out.1.value[i] >= 2
    decreases left
  {
    if left == 0 || !InChain(g, cluster) then (r, Some([]))
    else
      var (r1, next) := FetchEntry(r, base, g, cluster);
      if next.None? then (r1, None)
      else
        var (r', rest) := FetchChain(r1, base, g, next.value, left - 1);
        (r', if rest.None? then None else Some([cluster] + rest.value))
  }

  function FetchUpTo(s: Sys, base: nat, g: Geometry, cs: seq<nat>, data: bytes, size: nat): (r: (Sys, Option<bytes>))
    requires ValidDev(s.dev) && forall i :: 0 <= i < |cs| ==> cs[i] >= 2
    ensures ValidDev(r.0.dev)
    decreases |cs|
  {
    if cs == [] then (s, Some(Slice(data, 0, size)))
    else
      var (s1, chunk) := Fetch(s, base, ClusterOffset(g, cs[0]), ClusterSize(g));
      if chunk.None? then (s1, None)
      else if |data + chunk.value| >= size then (s1, Some(Slice(data + chunk.value, 0, size)))
      else FetchUpTo(s1, base, g, cs[1..], data + chunk.value, size)
  }

  /** read_file. */
  function FetchFile(r: Reader, base: nat, g: Geometry, first: nat, size: nat): (Reader, Option<bytes>)
    requires ValidDev(r.sys.dev) && g.bps > 0
  {
    var (r1, chain) := FetchChain(r, base, g, first, CHAIN_LIMIT);
    if chain.None? then (r1, None)
    else
      var (s', data) := FetchUpTo(r1.sys, base, g, chain.value, [], size);
      (r1.(sys := s'), data)
  }

  lemma {:induction false} FetchChainIsWalk(r: Reader, base: nat, g: Geometry, cluster: nat, left: nat, spare: nat)
    requires Sound(r, base, g, left + spare)
    ensures ValidDev(r.sys.dev) && r.sys.dev.units[0].blockSize > 0
    ensures var (r', chain) := FetchChain(r, base, g, cluster, left);
            && chain == Walk(Disk(r.sys, base), g, cluster, left)
            && (chain.Some? ==> Kept(r.sys, r'.sys, left) && Sound(r', base, g, spare))
    decreases left
  {
    hide FetchEntry, Entry, InChain, Pow256, AllValid, Quiescent, D.Read;
    UnitsExist(r.sys);
    if left > 0 && InChain(g, cluster) {
      FetchEntryIsEntry(r, base, g, cluster, left - 1 + spare);
      var (r1, next) := FetchEntry(r, base, g, cluster);
      if next.Some? {
        FetchChainIsWalk(r1, base, g, next.value, left - 1, spare);
      }
    }
  }

  lemma {:induction false} FetchUpToIsRead(s: Sys, base: nat, g: Geometry, cs: seq<nat>, data: bytes, size: nat)
    requires Idle(s, |cs|) && forall i :: 0 <= i < |cs| ==> cs[i] >= 2
    ensures ValidDev(s.dev) && s.dev.units[0].blockSize > 0
    ensures var (s', r) := FetchUpTo(s, base, g, cs, data, size);
            && r == ReadUpTo(Disk(s, base), g, cs, data, size)
            && (r.Some? ==> Kept(s, s', |cs|))
    decreases |cs|
  {
    hide Fetch, D.Read, ClusterOffset, ClusterSize, Slice, Pow256, AllValid, Quiescent;
    UnitsExist(s);
    if cs != [] {
      FetchIsRead(s, base, ClusterOffset(g, cs[0]), ClusterSize(g));
      var (s1, chunk) := Fetch(s, base, ClusterOffset(g, cs[0]), ClusterSize(g));
      if chunk.Some? && |data + chunk.value| < size {
        StaysIdle(s, s1, 1, |cs| - 1);
        FetchUpToIsRead(s1, base, g, cs[1..], data + chunk.value, size);
      }
    }
  }

  lemma {:induction false} WalkIsBounded(d: D.BlockDevice, g: Geometry, cluster: nat, left: nat)
    requires d.unit.blockSize > 0 && g.bps > 0 && Walk(d, g, cluster, left).Some?
    ensures |Walk(d, g, cluster, left).value| <= left
    decreases left
  {
    hide Entry, InChain;
    if left > 0 && InChain(g, cluster) {
      WalkIsBounded(d, g, Entry(d, g, cluster).value, left - 1);
    }
  }

  /**
   * A whole file read through driver, wrappers, halts and device is the read of FatFiles on the unit's
   * image, in success and in failure; when it succeeds the system is idle again, no unit has changed, and
   * the tag counter has moved by no more than one command for each table entry and each cluster.
   */
  lemma FileThroughStack(r: Reader, base: nat, g: Geometry, first: nat, size: nat)
    requires Sound(r, base, g, 2 * CHAIN_LIMIT)
    ensures ValidDev(r.sys.dev) && r.sys.dev.units[0].blockSize > 0
    ensures var (r', data) := FetchFile(r, base, g, first, size);
            && data == FileRead(Disk(r.sys, base), g, first, size)
            && (data.Some? ==> Kept(r.sys, r'.sys, 2 * CHAIN_LIMIT) && Sound(r', base, g, 0))
  {
    hide FetchChain, FetchUpTo, Walk, ReadUpTo, Pow256, AllValid, Quiescent, D.Read;
    UnitsExist(r.sys);
    FetchChainIsWalk(r, base, g, first, CHAIN_LIMIT, CHAIN_LIMIT);
    var (r1, chain) := FetchChain(r, base, g, first, CHAIN_LIMIT);
    if chain.Some? {
      WalkStaysInRange(Disk(r.sys, base), g, first, CHAIN_LIMIT);
      WalkIsBounded(Disk(r.sys, base), g, first, CHAIN_LIMIT);
      FetchUpToIsRead(r1.sys, base, g, chain.value, [], size);
    }
  }

  /** So a file whose chain the table holds comes over the wire as the first `size` bytes of its clusters' places
      in the unit's image, or of those before the cut. */
  lemma FileComesFromImage(r: Reader, base: nat, g: Geometry, first: nat, size: nat, cs: seq<nat>)
    requires Sound(r, base, g, 2 * CHAIN_LIMIT) && ValidGeometry(g)
    requires r.sys.dev.units != [] && IsChain(g, Part(Disk(r.sys, base)), first, cs)
    ensures ValidDev(r.sys.dev)
    ensures var (r', data) := FetchFile(r, base, g, first, size);
            var part, n := Part(Disk(r.sys, base)), NeededCount(g, |UpTo(cs, CHAIN_LIMIT)|, 0, size);
            data.Some? ==>
              && Kept(r.sys, r'.sys, 2 * CHAIN_LIMIT)
              && AllInPartition(g, part, cs[..n])
              && data.value == Slice(ClusterBytes(g, part, cs[..n]), 0, size)
              && (|data.value| == Min(size, Span(|cs|, ClusterSize(g))) <==> CutIsHarmless(g, cs, size))
  {
    hide FetchFile, FileRead, Part, IsChain, ClusterBytes, AllInPartition, CutIsHarmless, Span, Pow256, Slice;
    FileThroughStack(r, base, g, first, size);
    FileIsSlices(Disk(r.sys, base), g, first, size, cs);
  }
}
