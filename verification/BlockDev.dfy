/** The byte view over block reads (usbip/classes/host/extras/blockdev.py, BlockDevice),
    over one mass-storage unit. */
module BlockDev {
  import opened Bytes
  import opened BulkOnly
  import opened BulkOnlyHost
  import BlockStack

  /** `read_blocks` is the host driver's on logical unit 0; `base` is this view's offset. */
  datatype BlockDevice = BlockDevice(unit: Unit, base: nat)

  /** What MSCDriver.read_blocks gives; None is its OSError or OverflowError. */
  function ReadBlocks(u: Unit, lba: nat, count: nat): Option<bytes> {
    if !BlockStack.Cdb10Fits(lba, count) || Span(count, u.blockSize) >= Pow256(4) then None
    else if lba + count > u.numBlocks then None
    else Some(Blocks(u, lba, count))
  }

  function Read(d: BlockDevice, offset: nat, length: nat): Option<bytes>
    requires d.unit.blockSize > 0
  {
    if length == 0 then Some([])
    else
      var at := offset + d.base;
      var first := CountBlocks(at, d.unit.blockSize);
      var last := CountBlocks(at + length - 1, d.unit.blockSize);
      CountBlocksOrdered(at, at + length - 1, d.unit.blockSize);
      WholeBlocksFit(at, d.unit.blockSize);
      match ReadBlocks(d.unit, first, last - first + 1)
      case None => None
      case Some(chunk) =>
        var start := at - Span(first, d.unit.blockSize);
        Some(Slice(chunk, start, start + length))
  }

  /** A view shifted by a byte offset. */
  function View(d: BlockDevice, base: nat): BlockDevice {
    d.(base := d.base + base)
  }

  lemma {:induction false} CountBlocksOrdered(a: nat, b: nat, size: nat)
    requires a <= b && size > 0
    ensures CountBlocks(a, size) <= CountBlocks(b, size)
  {
    if a >= size {
      CountBlocksOrdered(a - size, b - size, size);
    }
  }

  /** The block range that holds these bytes, and whether one READ(10) can fetch it. */
  predicate Fetchable(d: BlockDevice, offset: nat, length: nat)
    requires d.unit.blockSize > 0 && length > 0
  {
    var first := CountBlocks(offset + d.base, d.unit.blockSize);
    var last := CountBlocks(offset + d.base + length - 1, d.unit.blockSize);
    && last < d.unit.numBlocks && first <= last
    && BlockStack.Cdb10Fits(first, last - first + 1)
    && Span(last - first + 1, d.unit.blockSize) < Pow256(4)
  }

  lemma SliceOfSlice<T>(s: seq<T>, a: nat, b: nat, x: nat, n: nat)
    requires a + x + n <= b <= |s|
    ensures Slice(Slice(s, a, b), x, x + n) == s[a + x..a + x + n]
  {
    var l, r := s[a..b][x..x + n], s[a + x..a + x + n];
    forall i | 0 <= i < n ensures l[i] == r[i] {
      assert l[i] == s[a..b][x + i];
    }
  }

  /** For any offset, length, block size and view: the bytes of the image at that place,
      exactly when the blocks that hold them exist and fit one command. */
  lemma ReadIsSlice(d: BlockDevice, offset: nat, length: nat)
    requires ValidUnit(d.unit) && length > 0
    ensures Read(d, offset, length).Some? <==> Fetchable(d, offset, length)
    ensures Fetchable(d, offset, length) ==>
              && d.base + offset + length <= |d.unit.image|
              && Read(d, offset, length) == Some(d.unit.image[d.base + offset..d.base + offset + length])
  {
    hide CountBlocks, Span, Slice, BlockStack.Cdb10Fits, Pow256;
    var u, at, size := d.unit, offset + d.base, d.unit.blockSize;
    var first, last := CountBlocks(at, size), CountBlocks(at + length - 1, size);
    CountBlocksOrdered(at, at + length - 1, size);
    WholeBlocksFit(at, size);
    if Fetchable(d, offset, length) {
      WholeBlocksFit(at + length - 1, size);
      SpanSucc(last, size);
      InRange(u, first, last - first + 1);
      SliceOfSlice(u.image, Span(first, size), Span(last + 1, size), at - Span(first, size), length);
    }
  }

  /** Nested views add their offsets. */
  lemma ViewsNest(d: BlockDevice, b1: nat, b2: nat, offset: nat, length: nat)
    requires d.unit.blockSize > 0
    ensures Read(View(View(d, b1), b2), offset, length) == Read(d, b1 + b2 + offset, length)
  {
    hide CountBlocks, ReadBlocks, Slice, Span;
  }

  /** The same through the whole stack: MSCDriver.read_blocks on a quiescent system is
      exactly the block read assumed here, and leaves the units alone when it succeeds. */
  lemma StackReadsBlocks(s: Sys, lba: nat, count: nat)
    requires s.dev.units != [] && BlockStack.Cdb10Fits(lba, count)
    requires BlockStack.Ready(s, 0, Span(count, s.dev.units[0].blockSize))
    ensures var u := s.dev.units[0];
      var (s', r) := BlockStack.ReadBlocks(s, lba, count, u.blockSize, 0);
      && Quiescent(s')
      && match ReadBlocks(u, lba, count) {
           case Some(data) => r == BlockStack.Read(data) && s'.dev.units == s.dev.units
           case None => r == BlockStack.Failed(1)
         }
  {
    hide BlockStack.ReadBlocks, Quiescent, Blocks, Span, CommandIn;
    BlockStack.ReadBlocksIsSlice(s, lba, count, 0);
  }
}
