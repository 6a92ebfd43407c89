/** One baseline JPEG block (examples/uvc_device.py, JpegDecoder._block and extend;
    ITU-T T.81 section F.2.2): the decoder, a reference encoder, and their round trip. */
module JpegBlock {
  import opened Bytes
  import opened Huffman
  import opened BitReading

  /** ZIGZAG[k]: where the k-th coded coefficient lies in the 8x8 block. */
  function Zigzag(k: nat): nat {
    match k
    case 0 => 0 case 1 => 1 case 2 => 8 case 3 => 16 case 4 => 9 case 5 => 2 case 6 => 3 case 7 => 10
    case 8 => 17 case 9 => 24 case 10 => 32 case 11 => 25 case 12 => 18 case 13 => 11 case 14 => 4 case 15 => 5
    case 16 => 12 case 17 => 19 case 18 => 26 case 19 => 33 case 20 => 40 case 21 => 48 case 22 => 41 case 23 => 34
    case 24 => 27 case 25 => 20 case 26 => 13 case 27 => 6 case 28 => 7 case 29 => 14 case 30 => 21 case 31 => 28
    case 32 => 35 case 33 => 42 case 34 => 49 case 35 => 56 case 36 => 57 case 37 => 50 case 38 => 43 case 39 => 36
    case 40 => 29 case 41 => 22 case 42 => 15 case 43 => 23 case 44 => 30 case 45 => 37 case 46 => 44 case 47 => 51
    case 48 => 58 case 49 => 59 case 50 => 52 case 51 => 45 case 52 => 38 case 53 => 31 case 54 => 39 case 55 => 46
    case 56 => 53 case 57 => 60 case 58 => 61 case 59 => 54 case 60 => 47 case 61 => 55 case 62 => 62 case 63 => 63
    case _ => 64
  }

  function Unzigzag(k: nat): nat {
    match k
    case 0 => 0 case 1 => 1 case 2 => 5 case 3 => 6 case 4 => 14 case 5 => 15 case 6 => 27 case 7 => 28
    case 8 => 2 case 9 => 4 case 10 => 7 case 11 => 13 case 12 => 16 case 13 => 26 case 14 => 29 case 15 => 42
    case 16 => 3 case 17 => 8 case 18 => 12 case 19 => 17 case 20 => 25 case 21 => 30 case 22 => 41 case 23 => 43
    case 24 => 9 case 25 => 11 case 26 => 18 case 27 => 24 case 28 => 31 case 29 => 40 case 30 => 44 case 31 => 53
    case 32 => 10 case 33 => 19 case 34 => 23 case 35 => 32 case 36 => 39 case 37 => 45 case 38 => 52 case 39 => 54
    case 40 => 20 case 41 => 22 case 42 => 33 case 43 => 38 case 44 => 46 case 45 => 51 case 46 => 55 case 47 => 60
    case 48 => 21 case 49 => 34 case 50 => 37 case 51 => 47 case 52 => 50 case 53 => 56 case 54 => 59 case 55 => 61
    case 56 => 35 case 57 => 36 case 58 => 48 case 59 => 49 case 60 => 57 case 61 => 58 case 62 => 62 case 63 => 63
    case _ => 64
  }

  /** One step of the zig-zag over an 8 by 8 block, by row and column: up and to the right on even diagonals, down
      and to the left on odd ones, along the edge where the block ends (ITU-T T.81, figure 5). */
  function ZigzagStep(place: nat): int {
    var row, column := place / 8, place % 8;
    if (row + column) % 2 == 0 then
      if column == 7 then place + 8 else if row == 0 then place + 1 else place - 7
    else
      if row == 7 then place + 1 else if column == 0 then place + 8 else place + 7
  }

  lemma ZigzagWalks0(k: nat)
    requires k < 16
    ensures Zigzag(k + 1) == ZigzagStep(Zigzag(k))
  {
  }

  lemma ZigzagWalks1(k: nat)
    requires 16 <= k < 32
    ensures Zigzag(k + 1) == ZigzagStep(Zigzag(k))
  {
  }

  lemma ZigzagWalks2(k: nat)
    requires 32 <= k < 48
    ensures Zigzag(k + 1) == ZigzagStep(Zigzag(k))
  {
  }

  lemma ZigzagWalks3(k: nat)
    requires 48 <= k < 63
    ensures Zigzag(k + 1) == ZigzagStep(Zigzag(k))
  {
  }

  /** The table starts at the corner and walks the diagonals. */
  lemma ZigzagWalks(k: nat)
    requires k < 63
    ensures Zigzag(0) == 0 && Zigzag(k + 1) == ZigzagStep(Zigzag(k))
  {
    if k < 16 {
      ZigzagWalks0(k);
    } else if k < 32 {
      ZigzagWalks1(k);
    } else if k < 48 {
      ZigzagWalks2(k);
    } else {
      ZigzagWalks3(k);
    }
  }

  lemma ZigzagRows0(k: nat)
    requires 0 <= k < 16
    ensures Zigzag(k) < 64 && Unzigzag(k) < 64
    ensures Unzigzag(Zigzag(k)) == k && Zigzag(Unzigzag(k)) == k
  {
  }

  lemma ZigzagRows1(k: nat)
    requires 16 <= k < 32
    ensures Zigzag(k) < 64 && Unzigzag(k) < 64
    ensures Unzigzag(Zigzag(k)) == k && Zigzag(Unzigzag(k)) == k
  {
  }

  lemma ZigzagRows2(k: nat)
    requires 32 <= k < 48
    ensures Zigzag(k) < 64 && Unzigzag(k) < 64
    ensures Unzigzag(Zigzag(k)) == k && Zigzag(Unzigzag(k)) == k
  {
  }

  lemma ZigzagRows3(k: nat)
    requires 48 <= k < 64
    ensures Zigzag(k) < 64 && Unzigzag(k) < 64
    ensures Unzigzag(Zigzag(k)) == k && Zigzag(Unzigzag(k)) == k
  {
  }

  /** The zig-zag order visits every place of the block once. */
  lemma ZigzagIsPermutation(k: nat)
    requires k < 64
    ensures Zigzag(k) < 64 && Unzigzag(k) < 64
    ensures Unzigzag(Zigzag(k)) == k && Zigzag(Unzigzag(k)) == k
  {
    hide Zigzag, Unzigzag;
    if k < 16 {
      ZigzagRows0(k);
    } else if k < 32 {
      ZigzagRows1(k);
    } else if k < 48 {
      ZigzagRows2(k);
    } else {
      ZigzagRows3(k);
    }
  }

  // ---- magnitudes ------------------------------------------------------------------

  /** Sign-extend a `size`-bit magnitude. */
  function Extend(value: nat, size: nat): int {
    if size > 0 && value < Pow2(size - 1) then value - Pow2(size) + 1 else value
  }

  function BitLength(n: nat): nat {
    if n == 0 then 0 else 1 + BitLength(n / 2)
  }

  function Abs(v: int): nat { if v < 0 then -v else v }

  /** The size category of a coefficient, and its magnitude bits. */
  function SizeOf(v: int): nat { BitLength(Abs(v)) }

  function Magnitude(v: int): nat
    requires Abs(v) < Pow2(SizeOf(v))
  {
    if v >= 0 then v else v + Pow2(SizeOf(v)) - 1
  }

  lemma {:induction false} BitLengthBounds(n: nat)
    ensures n < Pow2(BitLength(n))
    ensures n > 0 ==> BitLength(n) > 0 && Pow2(BitLength(n) - 1) <= n
  {
    if n > 0 {
      BitLengthBounds(n / 2);
      if n / 2 > 0 {
        assert Pow2(BitLength(n) - 1) == 2 * Pow2(BitLength(n / 2) - 1);
      }
    }
  }

  lemma {:induction false} BitLengthUnique(n: nat, size: nat)
    requires size > 0 && Pow2(size - 1) <= n < Pow2(size)
    ensures BitLength(n) == size
  {
    if size > 1 {
      assert Pow2(size - 1) == 2 * Pow2(size - 2);
      BitLengthUnique(n / 2, size - 1);
    }
  }

  /** extend inverts the magnitude coding, for every coefficient. */
  lemma ExtendInvertsMagnitude(v: int)
    ensures Abs(v) < Pow2(SizeOf(v)) && Magnitude(v) < Pow2(SizeOf(v))
    ensures Extend(Magnitude(v), SizeOf(v)) == v
  {
    BitLengthBounds(Abs(v));
    if v != 0 {
      assert Pow2(SizeOf(v)) == 2 * Pow2(SizeOf(v) - 1);
    }
  }

  /** And the other way: every magnitude of a size is that of exactly one coefficient. */
  lemma MagnitudeInvertsExtend(value: nat, size: nat)
    requires size > 0 && value < Pow2(size)
    ensures var v := Extend(value, size); SizeOf(v) == size && Abs(v) < Pow2(size) && Magnitude(v) == value
  {
    hide BitLength;
    assert Pow2(size) == 2 * Pow2(size - 1);
    var v := Extend(value, size);
    BitLengthUnique(Abs(v), size);
  }

  // ---- decoding -----------------------------------------------------------------------

  /** A block in natural order and the rest of the stream. */
  datatype Decoded = Decoded(coef: seq<int>, dc: int, rest: seq<Bit>)

  function ZeroBlock(): (r: seq<int>)
    ensures |r| == 64 && forall i :: 0 <= i < 64 ==> r[i] == 0
  {
    seq(64, i => 0)
  }

  /** The AC loop from coefficient k on. */
  function AcLoop(s: seq<Bit>, ac: Table, k: nat, coef: seq<int>): (seq<int>, seq<Bit>)
    requires |coef| == 64
    decreases 64 - k
  {
    if k >= 64 then (coef, s)
    else
      var (runSize, s1) := ReadSymbol(s, ac, 1, 0);
      var run, size := runSize / 16, runSize % 16;
      if size == 0 then
        if run == 15 then AcLoop(s1, ac, k + 16, coef) else (coef, s1)
      else if k + run >= 64 then (coef, s1)
      else
        var (value, s2) := GetBits(s1, size, 0);
        ZigzagIsPermutation(k + run);
        AcLoop(s2, ac, k + run + 1, coef[Zigzag(k + run) := Extend(value, size)])
  }

  function DecodeBlock(s: seq<Bit>, dc: Table, ac: Table, pred: int): Decoded {
    var (size, s1) := ReadSymbol(s, dc, 1, 0);
    var (value, s2) := if size > 0 then GetBits(s1, size, 0) else (0, s1);
    var dcValue := if size > 0 then pred + Extend(value, size) else pred;
    var (coef, rest) := AcLoop(s2, ac, 1, ZeroBlock()[0 := dcValue]);
    Decoded(coef, dcValue, rest)
  }

  /** JpegDecoder._block on a reader: the block of its stream, and the new DC predictor. */
  method Block(reader: BitReader, dcTable: Table, acTable: Table, dcPred: int) returns (coef: seq<int>, dc: int)
    modifies reader`pos, reader`buf, reader`cnt
    ensures Decoded(coef, dc, reader.Stream()) == DecodeBlock(old(reader.Stream()), dcTable, acTable, dcPred)
  {
    hide MsbBits, BitsOf, Unstuffed, ReadSymbol, GetBits, Zigzag, Extend;
    coef, dc := ZeroBlock(), dcPred;
    ghost var s0 := reader.Stream();
    var size := reader.Huff(dcTable);
    if size > 0 {
      var diff := reader.Get(size);
      dc := dc + Extend(diff, size);
    }
    coef := coef[0 := dc];
    ghost var whole := AcLoop(reader.Stream(), acTable, 1, coef);
    assert DecodeBlock(s0, dcTable, acTable, dcPred) == Decoded(whole.0, dc, whole.1);
    var k: nat := 1;
    while k < 64
      invariant |coef| == 64 && k <= 79
      invariant AcLoop(reader.Stream(), acTable, k, coef) == whole
      decreases 79 - k
    {
      var runSize := reader.Huff(acTable);
      var run, size := runSize / 16, runSize % 16;
      if size == 0 {
        if run == 15 {
          k := k + 16;
          continue;
        }
        return;
      }
      k := k + run;
      if k >= 64 {
        return;
      }
      var value := reader.Get(size);
      ZigzagIsPermutation(k);
      coef := coef[Zigzag(k) := Extend(value, size)];
      k := k + 1;
    }
  }

  // ---- encoding -------------------------------------------------------------------------

  /** The table gives this symbol some code. */
  ghost predicate HasSymbol(table: Table, symbol: nat) {
    exists l: nat, c: nat :: (l, c) in table && table[(l, c)] == symbol
  }

  ghost function SymbolBits(table: Table, symbol: nat): seq<Bit>
    requires HasSymbol(table, symbol)
  {
    var l: nat, c: nat :| (l, c) in table && table[(l, c)] == symbol;
    MsbBits(c, l)
  }

  ghost function ValueBits(v: int): seq<Bit> {
    ExtendInvertsMagnitude(v);
    MsbBits(Magnitude(v), SizeOf(v))
  }

  /** The symbol of a coefficient after `run` zeros. */
  function RunSize(run: nat, v: int): nat { Pair(run, SizeOf(v)) }

  function Pair(run: nat, size: nat): nat { run * 16 + size }

  /** The table codes this run: sixteen zeros while it is that long, then the rest with the coefficient. */
  ghost predicate CodesRun(ac: Table, run: nat, v: int) {
    if run >= 16 then HasSymbol(ac, 0xF0) && CodesRun(ac, run - 16, v) else HasSymbol(ac, RunSize(run, v))
  }

  ghost function RunBits(ac: Table, run: nat, v: int): seq<Bit>
    requires CodesRun(ac, run, v)
  {
    if run >= 16 then SymbolBits(ac, 0xF0) + RunBits(ac, run - 16, v)
    else SymbolBits(ac, RunSize(run, v)) + ValueBits(v)
  }

  /** How many zeros lead from k. */
  function ZerosFrom(zz: seq<int>, k: nat): (n: nat)
    requires k <= |zz|
    ensures k + n <= |zz|
    ensures forall i :: k <= i < k + n ==> zz[i] == 0
    ensures k + n < |zz| ==> zz[k + n] != 0
    decreases |zz| - k
  {
    if k == |zz| || zz[k] != 0 then 0 else 1 + ZerosFrom(zz, k + 1)
  }

  /** The table codes the runs this block has from k on, and an end of block if it ends in zeros. */
  ghost predicate CodesAc(ac: Table, zz: seq<int>, k: nat)
    requires k <= |zz|
    decreases |zz| - k
  {
    if k == |zz| then true
    else
      var n := ZerosFrom(zz, k);
      if k + n == |zz| then HasSymbol(ac, 0) else CodesRun(ac, n, zz[k + n]) && CodesAc(ac, zz, k + n + 1)
  }

  /** AC coefficients k.. in zig-zag order; trailing zeros become an end of block. */
  ghost function AcBits(ac: Table, zz: seq<int>, k: nat): seq<Bit>
    requires k <= |zz| && CodesAc(ac, zz, k)
    decreases |zz| - k
  {
    if k == |zz| then []
    else
      var n := ZerosFrom(zz, k);
      if k + n == |zz| then SymbolBits(ac, 0) else RunBits(ac, n, zz[k + n]) + AcBits(ac, zz, k + n + 1)
  }

  /** Baseline AC coefficients have at most 15 magnitude bits. */
  ghost predicate InRange(zz: seq<int>) {
    forall k :: 1 <= k < |zz| ==> Abs(zz[k]) < Pow2(15)
  }

  /** The 162 symbols of a baseline table: every run with sizes 1..10, sixteen zeros, end of block. */
  ghost predicate BaselineAc(ac: Table) {
    && HasSymbol(ac, 0) && HasSymbol(ac, 0xF0)
    && forall run: nat, size: nat :: run < 16 && 1 <= size <= 10 ==> HasSymbol(ac, Pair(run, size))
  }

  lemma {:induction false} BaselineRun(ac: Table, run: nat, v: int)
    requires BaselineAc(ac) && v != 0 && Abs(v) < Pow2(10)
    ensures CodesRun(ac, run, v)
    decreases run
  {
    if run >= 16 {
      BaselineRun(ac, run - 16, v);
    } else {
      BitLengthMonotone(Abs(v), 10);
      BitLengthBounds(Abs(v));
    }
  }

  /** Such a table codes every block whose AC coefficients have at most ten bits, as those of 8-bit samples do. */
  lemma {:induction false} BaselineTableCodes(ac: Table, zz: seq<int>, k: nat)
    requires BaselineAc(ac) && 1 <= k <= |zz|
    requires forall i :: 1 <= i < |zz| ==> Abs(zz[i]) < Pow2(10)
    ensures CodesAc(ac, zz, k)
    decreases |zz| - k
  {
    hide CodesRun, BaselineAc, HasSymbol;
    var n := ZerosFrom(zz, k);
    if k < |zz| {
      if k + n < |zz| {
        BaselineRun(ac, n, zz[k + n]);
        BaselineTableCodes(ac, zz, k + n + 1);
      } else {
        BaselineEnds(ac);
      }
    }
  }

  lemma BaselineEnds(ac: Table)
    requires BaselineAc(ac)
    ensures HasSymbol(ac, 0)
  {
  }

  lemma {:induction false} BitLengthMonotone(n: nat, size: nat)
    requires n < Pow2(size)
    ensures BitLength(n) <= size
  {
    if n > 0 {
      assert size > 0;
      BitLengthMonotone(n / 2, size - 1);
    }
  }

  lemma SizeInRange(v: int)
    requires Abs(v) < Pow2(15) && v != 0
    ensures 1 <= SizeOf(v) <= 15
  {
    BitLengthMonotone(Abs(v), 15);
    BitLengthBounds(Abs(v));
  }

  /** The tables have a code for every symbol this block needs. */
  ghost predicate CodesBlock(dc: Table, ac: Table, zz: seq<int>, pred: int) {
    |zz| == 64 && HasSymbol(dc, SizeOf(zz[0] - pred)) && CodesAc(ac, zz, 1)
  }

  /** A block: its DC difference, then its AC coefficients; `zz` is in zig-zag order. */
  ghost function BlockBits(dc: Table, ac: Table, zz: seq<int>, pred: int): seq<Bit>
    requires CodesBlock(dc, ac, zz, pred)
  {
    (SymbolBits(dc, SizeOf(zz[0] - pred)) + ValueBits(zz[0] - pred)) + AcBits(ac, zz, 1)
  }

  // ---- the round trip -----------------------------------------------------------------------

  /** A canonical table within the Kraft bound. */
  ghost predicate GoodTable(table: Table, counts: seq<nat>, symbols: seq<nat>) {
    Canonical(table, counts, symbols) && Kraft(counts, MAX_LENGTH) <= Pow2(MAX_LENGTH)
  }

  lemma SymbolRoundTrip(table: Table, counts: seq<nat>, symbols: seq<nat>, symbol: nat, rest: seq<Bit>)
    requires GoodTable(table, counts, symbols) && HasSymbol(table, symbol)
    ensures ReadSymbol(SymbolBits(table, symbol) + rest, table, 1, 0) == (symbol, rest)
  {
    hide Canonical, ReadSymbol;
    var l: nat, c: nat :| (l, c) in table && table[(l, c)] == symbol && SymbolBits(table, symbol) == MsbBits(c, l);
    SymbolIsRead(table, counts, symbols, l, c, rest);
  }

  lemma ValueRoundTrip(v: int, rest: seq<Bit>)
    ensures GetBits(ValueBits(v) + rest, SizeOf(v), 0).1 == rest
    ensures Extend(GetBits(ValueBits(v) + rest, SizeOf(v), 0).0, SizeOf(v)) == v
  {
    ExtendInvertsMagnitude(v);
    ShrFits(Magnitude(v), SizeOf(v));
    GetBitsInverts(Magnitude(v), SizeOf(v), rest);
  }

  lemma RunSizeParts(run: nat, v: int)
    requires run < 16 && 1 <= SizeOf(v) <= 15
    ensures RunSize(run, v) / 16 == run && RunSize(run, v) % 16 == SizeOf(v)
  {
  }

  /** Decoding a run of zeros and a coefficient puts the coefficient after the run. */
  lemma {:induction false} RunRoundTrip(ac: Table, counts: seq<nat>, symbols: seq<nat>, run: nat, v: int,
                                        rest: seq<Bit>, k: nat, coef: seq<int>)
    requires GoodTable(ac, counts, symbols) && CodesRun(ac, run, v) && 1 <= SizeOf(v) <= 15
    requires |coef| == 64 && k + run < 64
    ensures Zigzag(k + run) < 64
    ensures AcLoop(RunBits(ac, run, v) + rest, ac, k, coef) == AcLoop(rest, ac, k + run + 1, coef[Zigzag(k + run) := v])
    decreases run
  {
    hide GoodTable, ReadSymbol, GetBits, SymbolBits, ValueBits, Extend, Zigzag, HasSymbol, SizeOf;
    ZigzagIsPermutation(k + run);
    if run >= 16 {
      var later := RunBits(ac, run - 16, v);
      Assoc(SymbolBits(ac, 0xF0), later, rest);
      SymbolRoundTrip(ac, counts, symbols, 0xF0, later + rest);
      RunRoundTrip(ac, counts, symbols, run - 16, v, rest, k + 16, coef);
    } else {
      Assoc(SymbolBits(ac, RunSize(run, v)), ValueBits(v), rest);
      SymbolRoundTrip(ac, counts, symbols, RunSize(run, v), ValueBits(v) + rest);
      RunSizeParts(run, v);
      ValueRoundTrip(v, rest);
    }
  }

  /** `coef` holds the block up to zig-zag place k and zeros after it. */
  ghost predicate Filled(coef: seq<int>, zz: seq<int>, k: nat) {
    && |coef| == |zz| == 64
    && forall i :: 0 <= i < 64 ==> Zigzag(i) < 64 && coef[Zigzag(i)] == if i < k then zz[i] else 0
  }

  lemma FilledAfterZeros(coef: seq<int>, zz: seq<int>, k: nat, n: nat)
    requires Filled(coef, zz, k) && k + n <= 64 && forall i :: k <= i < k + n ==> zz[i] == 0
    ensures Filled(coef, zz, k + n)
  {
  }

  lemma FilledOneMore(coef: seq<int>, zz: seq<int>, k: nat)
    requires Filled(coef, zz, k) && k < 64
    ensures Zigzag(k) < 64 && Filled(coef[Zigzag(k) := zz[k]], zz, k + 1)
  {
    hide Zigzag, Unzigzag;
    var coef' := coef[Zigzag(k) := zz[k]];
    ZigzagIsPermutation(k);
    forall i | 0 <= i < 64 ensures Zigzag(i) < 64 && coef'[Zigzag(i)] == if i < k + 1 then zz[i] else 0 {
      ZigzagIsPermutation(i);
      assert coef[Zigzag(i)] == if i < k then zz[i] else 0;
    }
  }

  lemma {:induction false} AcRoundTrip(ac: Table, counts: seq<nat>, symbols: seq<nat>, zz: seq<int>, k: nat,
                                       rest: seq<Bit>, coef: seq<int>)
    requires GoodTable(ac, counts, symbols) && |zz| == 64 && InRange(zz)
    requires 1 <= k <= 64 && CodesAc(ac, zz, k) && Filled(coef, zz, k)
    ensures var (coef', rest') := AcLoop(AcBits(ac, zz, k) + rest, ac, k, coef);
      rest' == rest && Filled(coef', zz, 64)
    decreases 64 - k
  {
    hide GoodTable, Filled, ReadSymbol, GetBits, SymbolBits, RunBits, Zigzag, Extend, SizeOf, CodesRun, HasSymbol;
    FilledLength(coef, zz, k);
    if k == 64 {
      assert [] + rest == rest;
    } else {
      var n := ZerosFrom(zz, k);
      FilledAfterZeros(coef, zz, k, n);
      if k + n == 64 {
        SymbolRoundTrip(ac, counts, symbols, 0, rest);
      } else {
        var v := zz[k + n];
        SizeInRange(v);
        var later := AcBits(ac, zz, k + n + 1);
        Assoc(RunBits(ac, n, v), later, rest);
        RunRoundTrip(ac, counts, symbols, n, v, later + rest, k, coef);
        FilledOneMore(coef, zz, k + n);
        AcRoundTrip(ac, counts, symbols, zz, k + n + 1, rest, coef[Zigzag(k + n) := v]);
      }
    }
  }

  lemma FilledLength(coef: seq<int>, zz: seq<int>, k: nat)
    requires Filled(coef, zz, k)
    ensures |coef| == 64
  {
  }

  lemma DcFilled(zz: seq<int>)
    requires |zz| == 64
    ensures Filled(ZeroBlock()[0 := zz[0]], zz, 1)
  {
    hide Zigzag, Unzigzag;
    var coef := ZeroBlock()[0 := zz[0]];
    ZigzagAtZero();
    forall i | 0 <= i < 64 ensures Zigzag(i) < 64 && coef[Zigzag(i)] == if i < 1 then zz[i] else 0 {
      ZigzagIsPermutation(i);
    }
  }

  lemma ZigzagAtZero()
    ensures Zigzag(0) == 0 && Unzigzag(0) == 0
  {
  }

  /** Decoding the coded bits of any block returns that block and the new predictor, and
      consumes exactly those bits, whatever follows. */
  lemma BlockRoundTrip(dc: Table, dcCounts: seq<nat>, dcSymbols: seq<nat>, ac: Table, acCounts: seq<nat>,
                       acSymbols: seq<nat>, zz: seq<int>, pred: int, rest: seq<Bit>)
    requires GoodTable(dc, dcCounts, dcSymbols) && GoodTable(ac, acCounts, acSymbols)
    requires CodesBlock(dc, ac, zz, pred) && InRange(zz)
    ensures var d := DecodeBlock(BlockBits(dc, ac, zz, pred) + rest, dc, ac, pred);
      d.rest == rest && d.dc == zz[0] && Filled(d.coef, zz, 64)
  {
    hide GoodTable, Filled, ReadSymbol, GetBits, SymbolBits, ValueBits, Extend, AcLoop, AcBits, CodesAc, InRange,
         HasSymbol;
    var diff := zz[0] - pred;
    var symbol, value, later := SymbolBits(dc, SizeOf(diff)), ValueBits(diff), AcBits(ac, zz, 1);
    Assoc(symbol + value, later, rest);
    Assoc(symbol, value, later + rest);
    SymbolRoundTrip(dc, dcCounts, dcSymbols, SizeOf(diff), value + (later + rest));
    ValueRoundTrip(diff, later + rest);
    ZeroSize(diff, later + rest);
    DcFilled(zz);
    AcRoundTrip(ac, acCounts, acSymbols, zz, 1, rest, ZeroBlock()[0 := zz[0]]);
  }

  lemma ZeroSize(v: int, rest: seq<Bit>)
    ensures SizeOf(v) == 0 ==> v == 0 && ValueBits(v) + rest == rest
  {
    BitLengthBounds(Abs(v));
  }

  /** The bits a reader has when placed on packed and stuffed bits, before a marker or the end. */
  lemma StuffedStream(before: bytes, bits: seq<Bit>, tail: bytes)
    requires EndsScan(tail)
    ensures BitsOf(Unstuffed(before + Stuff(Pack(bits)) + tail, |before|)) == bits + Padding(|bits|)
  {
    UnstuffInvertsStuff(before, Pack(bits), tail);
    PackKeepsBits(bits);
  }

  /** The bytes of a coded block, packed and stuffed, between what precedes and what follows it. */
  ghost function BlockBytes(before: bytes, dc: Table, ac: Table, zz: seq<int>, pred: int, tail: bytes): bytes
    requires CodesBlock(dc, ac, zz, pred)
  {
    before + Stuff(Pack(BlockBits(dc, ac, zz, pred))) + tail
  }

  /** From bytes to block: a fresh reader on a coded block's bytes decodes that block, and only the
      padding of its last byte is left before the marker or the end. */
  method BlockFromBytes(reader: BitReader, dcTable: Table, acTable: Table, dcPred: int,
                        ghost dcCounts: seq<nat>, ghost dcSymbols: seq<nat>,
                        ghost acCounts: seq<nat>, ghost acSymbols: seq<nat>,
                        ghost before: bytes, ghost zz: seq<int>, ghost tail: bytes)
      returns (coef: seq<int>, dc: int)
    requires GoodTable(dcTable, dcCounts, dcSymbols) && GoodTable(acTable, acCounts, acSymbols)
    requires CodesBlock(dcTable, acTable, zz, dcPred) && InRange(zz) && EndsScan(tail)
    requires reader.data == BlockBytes(before, dcTable, acTable, zz, dcPred, tail)
    requires reader.pos == |before| && reader.cnt == 0
    modifies reader`pos, reader`buf, reader`cnt
    ensures Filled(coef, zz, 64) && dc == zz[0]
    ensures reader.Stream() == Padding(|BlockBits(dcTable, acTable, zz, dcPred)|)
  {
    hide GoodTable, CodesBlock, BlockBits, DecodeBlock, Filled, InRange, MsbBits, BitsOf, Unstuffed, Stuff, Pack,
         Padding;
    ghost var bits := BlockBits(dcTable, acTable, zz, dcPred);
    NoBits(reader.buf, BitsOf(Unstuffed(reader.data, reader.pos)));
    StuffedStream(before, bits, tail);
    BlockRoundTrip(dcTable, dcCounts, dcSymbols, acTable, acCounts, acSymbols, zz, dcPred, Padding(|bits|));
    coef, dc := Block(reader, dcTable, acTable, dcPred);
  }

  /** The same as a law of the decoder: the block comes back from its bytes with only padding left. */
  lemma BytesRoundTrip(dc: Table, dcCounts: seq<nat>, dcSymbols: seq<nat>, ac: Table, acCounts: seq<nat>,
                       acSymbols: seq<nat>, zz: seq<int>, pred: int, before: bytes, tail: bytes)
    requires GoodTable(dc, dcCounts, dcSymbols) && GoodTable(ac, acCounts, acSymbols)
    requires CodesBlock(dc, ac, zz, pred) && InRange(zz) && EndsScan(tail)
    ensures var d := DecodeBlock(BitsOf(Unstuffed(BlockBytes(before, dc, ac, zz, pred, tail), |before|)), dc, ac, pred);
      d.rest == Padding(|BlockBits(dc, ac, zz, pred)|) && |d.rest| < 8 && d.dc == zz[0] && Filled(d.coef, zz, 64)
  {
    hide GoodTable, CodesBlock, BlockBits, DecodeBlock, Filled, InRange, BitsOf, Unstuffed, Stuff, Pack, Padding;
    var bits := BlockBits(dc, ac, zz, pred);
    StuffedStream(before, bits, tail);
    PackKeepsBits(bits);
    BlockRoundTrip(dc, dcCounts, dcSymbols, ac, acCounts, acSymbols, zz, pred, Padding(|bits|));
  }
}
