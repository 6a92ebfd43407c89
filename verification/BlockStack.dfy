/** Mass storage seen from above: any run of fitting commands behaves like the abstract
    machine on plain units, and read_blocks / write_blocks behave like slices and updates
    of one unit's image (usbip/classes/host/msc.py over usbip/classes/device/msc.py). */
module BlockStack {
  import opened Bytes
  import opened UrbPipe
  import opened BulkOnly
  import opened BulkOnlyHost

  datatype Command =
    | CmdIn(cdb: bytes, dlen: nat, lun: nat)
    | CmdOut(cdb: bytes, data: bytes, lun: nat)

  function Execute(s: Sys, c: Command): (r: (Sys, Outcome))
    requires ValidDev(s.dev)
    ensures ValidDev(r.0.dev)
  {
    match c
    case CmdIn(cdb, dlen, lun) => CommandIn(s, cdb, dlen, lun)
    case CmdOut(cdb, data, lun) => CommandOut(s, cdb, data, lun)
  }

  function Meaning(units: seq<Unit>, c: Command): Effect
    requires units != [] && AllValid(units)
  {
    match c
    case CmdIn(cdb, dlen, lun) => Abstract(units, lun, cdb, dlen, [])
    case CmdOut(cdb, data, lun) => Abstract(units, lun, cdb, |data|, data)
  }

  predicate Fit(units: seq<Unit>, tag: nat, c: Command)
    requires forall i :: 0 <= i < |units| ==> units[i].numBlocks >= 1
  {
    match c
    case CmdIn(cdb, dlen, lun) => CbwFits(tag, dlen, lun, cdb) && FitIn(units, lun, cdb, dlen)
    case CmdOut(cdb, data, lun) =>
      CbwFits(tag, |data|, lun, cdb) && FitOut(units, lun, cdb, data) && !Misread(units, lun, cdb, data)
  }

  /** Same unit but for its blocks and its sense data. */
  predicate SameUnit(u: Unit, v: Unit) {
    |u.image| == |v.image| && u == v.(image := u.image, sense := u.sense)
  }

  /** One unit changes at most, and its blocks only when a write is carried out. */
  lemma EnactIsLocal(units: seq<Unit>, k: nat, cdb: bytes, room: nat, payload: bytes, action: Action, i: nat)
    requires k < |units| && ValidUnit(units[k]) && i < |units|
    requires action.Await? ==> cdb != [] && LbaCount(cdb).0 + LbaCount(cdb).1 <= units[k].numBlocks
    ensures var e := Enact(units, k, cdb, room, payload, action);
      && |e.units| == |units|
      && (i != k ==> e.units[i] == units[i])
      && SameUnit(e.units[i], units[i])
      && (!action.Await? || payload == [] ==> e.units[i].image == units[i].image)
      && |e.data| <= room
  {
    if action.Await? {
      var (lba, count) := LbaCount(cdb);
      InRange(units[k], lba, count);
      if |payload| >= Span(count, units[k].blockSize) {
        StoreKeepsSize(units[k], lba, payload[..Span(count, units[k].blockSize)]);
        if payload == [] {
          EmptyWriteKeepsImage(units[k], lba, count);
        }
      }
    }
  }

  /** What every command keeps: geometry and protection of every unit, all other units
      (sense data for a missing unit goes to unit 0), the blocks of a read-only unit, and
      all blocks when the command carries no data. */
  lemma MeaningIsLocal(units: seq<Unit>, c: Command, i: nat)
    requires units != [] && AllValid(units) && i < |units|
    ensures var e, k := Meaning(units, c), c.lun % 16;
      && |e.units| == |units|
      && SameUnit(e.units[i], units[i])
      && (i != k && (i != 0 || k < |units|) ==> e.units[i] == units[i])
      && (units[i].readOnly || c.CmdIn? ==> e.units[i].image == units[i].image)
  {
    hide Decide, Enact, LbaCount;
    var k := c.lun % 16;
    if k < |units| {
      AwaitMeansWritable(units[k], c.cdb);
      var action := Decide(units[k], c.cdb);
      var payload := if c.CmdIn? then [] else c.data;
      var room := if c.CmdIn? then c.dlen else |c.data|;
      assert Meaning(units, c) == Enact(units, k, c.cdb, room, payload, action);
      EnactIsLocal(units, k, c.cdb, room, payload, action, i);
    }
  }

  lemma EmptyWriteKeepsImage(u: Unit, lba: nat, count: nat)
    requires ValidUnit(u) && lba + count <= u.numBlocks
    ensures Span(lba, u.blockSize) <= |u.image| && Store(u, lba, []).image == u.image
  {
    InRange(u, lba, count);
  }

  /** Every unit as it was but for its sense data and, unless it is read-only, its blocks. */
  predicate Kept(units: seq<Unit>, units': seq<Unit>) {
    && |units'| == |units|
    && forall i :: 0 <= i < |units| ==>
         SameUnit(units'[i], units[i]) && (units[i].readOnly ==> units'[i].image == units[i].image)
  }

  lemma MeaningKeepsValid(units: seq<Unit>, c: Command)
    requires units != [] && AllValid(units)
    ensures |Meaning(units, c).units| == |units| && AllValid(Meaning(units, c).units)
    ensures Kept(units, Meaning(units, c).units)
  {
    hide Meaning;
    MeaningIsLocal(units, c, 0);
    var e := Meaning(units, c);
    forall i | 0 <= i < |e.units|
      ensures ValidUnit(e.units[i]) && e.units[i].numBlocks >= 1 && SameUnit(e.units[i], units[i])
      ensures units[i].readOnly ==> e.units[i].image == units[i].image
    {
      MeaningIsLocal(units, c, i);
      assert ValidUnit(units[i]);
    }
  }

  // ---- runs ----------------------------------------------------------------------

  ghost predicate FitRun(units: seq<Unit>, tag: nat, cs: seq<Command>)
    requires units != [] && AllValid(units)
    decreases |cs|
  {
    cs == []
    || (MeaningKeepsValid(units, cs[0]);
        Fit(units, tag + 1, cs[0]) && FitRun(Meaning(units, cs[0]).units, tag + 1, cs[1..]))
  }

  function RunCommands(s: Sys, cs: seq<Command>): (Sys, seq<Outcome>)
    requires ValidDev(s.dev)
    decreases |cs|
  {
    if cs == [] then (s, [])
    else
      var (s1, o) := Execute(s, cs[0]);
      var (s', os) := RunCommands(s1, cs[1..]);
      (s', [o] + os)
  }

  /** The abstract run: final units, and the reply to each command with its own tag. */
  ghost function AbstractRun(units: seq<Unit>, tag: nat, cs: seq<Command>): (seq<Unit>, seq<Outcome>)
    requires units != [] && AllValid(units)
    decreases |cs|
  {
    if cs == [] then (units, [])
    else
      MeaningKeepsValid(units, cs[0]);
      var e := Meaning(units, cs[0]);
      var (units', os) := AbstractRun(e.units, tag + 1, cs[1..]);
      (units', [Done(e.data, Csw(ToLE(tag + 1, 4), e.residue, e.status))] + os)
  }

  lemma ExecuteRefines(s: Sys, c: Command)
    requires Quiescent(s) && AllValid(s.dev.units) && Fit(s.dev.units, s.tag + 1, c)
    ensures var (s', o) := Execute(s, c); Answers(s, s', o, Meaning(s.dev.units, c))
  {
    match c {
      case CmdIn(cdb, dlen, lun) => CommandInRefines(s, cdb, dlen, lun);
      case CmdOut(cdb, data, lun) => CommandOutRefines(s, cdb, data, lun);
    }
  }

  /** Any run of fitting commands from a quiescent system: every command is answered with
      the data and status of the abstract machine and a CSW of its own tag, the system is
      quiescent again, and the units are exactly the abstract ones. */
  lemma {:induction false} RunRefines(s: Sys, cs: seq<Command>)
    requires Quiescent(s) && AllValid(s.dev.units) && FitRun(s.dev.units, s.tag, cs)
    ensures var (s', os) := RunCommands(s, cs);
      && Quiescent(s')
      && (s'.dev.units, os) == AbstractRun(s.dev.units, s.tag, cs)
    decreases |cs|
  {
    hide Execute, Meaning, Fit, AllValid, ValidUnit, Csw, ToLE;
    if cs != [] {
      var units := s.dev.units;
      ExecuteRefines(s, cs[0]);
      MeaningKeepsValid(units, cs[0]);
      var s1 := Execute(s, cs[0]).0;
      assert s1.dev.units == Meaning(units, cs[0]).units && s1.tag == s.tag + 1;
      RunRefines(s1, cs[1..]);
    }
  }

  // ---- blocks ----------------------------------------------------------------------

  datatype BlockResult =
    | Read(data: bytes)
    | Wrote(count: nat)
    | Failed(status: byte)
    | TooBig                       // a field does not fit the CDB
    | NoAnswer(outcome: Outcome)

  function Cdb10(opcode: byte, lba: nat, count: nat): bytes {
    [opcode, 0] + ToBE(lba, 4) + [0] + ToBE(count, 2) + [0]
  }

  predicate Cdb10Fits(lba: nat, count: nat) { lba < Pow256(4) && count < Pow256(2) }

  /** The twelve-byte form, which hosts use for longer transfers. */
  function Cdb12(opcode: byte, lba: nat, count: nat): bytes {
    [opcode, 0] + ToBE(lba, 4) + ToBE(count, 4) + [0, 0]
  }

  predicate Cdb12Fits(lba: nat, count: nat) { lba < Pow256(4) && count < Pow256(4) }

  /** What a command block asks for, byte by byte: the address in bytes 2 to 5, most significant first, and the
      count in bytes 6 to 9 of the twelve-byte reads and writes, in bytes 7 and 8 of the others. */
  lemma LbaCountBytes(cdb: bytes)
    requires |cdb| >= 10
    ensures LbaCount(cdb).0 == 16777216 * At(cdb, 2) + 65536 * At(cdb, 3) + 256 * At(cdb, 4) + At(cdb, 5)
    ensures cdb[0] == 0xA8 || cdb[0] == 0xAA ==>
              LbaCount(cdb).1 == 16777216 * At(cdb, 6) + 65536 * At(cdb, 7) + 256 * At(cdb, 8) + At(cdb, 9)
    ensures cdb[0] != 0xA8 && cdb[0] != 0xAA ==> LbaCount(cdb).1 == 256 * At(cdb, 7) + At(cdb, 8)
  {
    hide FromBE;
    FromBE4(cdb[2..6]);
    FromBE4(cdb[6..10]);
    FromBE2(cdb[7..9]);
  }

  lemma Cdb12Parses(opcode: byte, lba: nat, count: nat)
    requires Cdb12Fits(lba, count) && (opcode == OP_READ_12 || opcode == OP_WRITE_12)
    ensures var cdb := Cdb12(opcode, lba, count); |cdb| == 12 && cdb[0] == opcode && LbaCount(cdb) == (lba, count)
  {
    var cdb := Cdb12(opcode, lba, count);
    var head := [opcode, 0] + ToBE(lba, 4);
    assert cdb == head + ToBE(count, 4) + [0, 0];
    assert head[2..6] == ToBE(lba, 4) && cdb[2..6] == head[2..6];
    assert cdb[6..10] == ToBE(count, 4);
    BERoundTrip(lba, 4);
    BERoundTrip(count, 4);
  }

  /** A read command with this block, and what its status makes of it. */
  function ReadWith(s: Sys, cdb: bytes, length: nat, lun: nat): (Sys, BlockResult)
    requires ValidDev(s.dev)
  {
    var (s1, o) := CommandIn(s, cdb, length, lun);
    (s1, if !o.Done? || |o.csw| != 13 then NoAnswer(o)
         else if o.csw[12] != 0 then Failed(o.csw[12])
         else Read(o.data))
  }

  function WriteWith(s: Sys, cdb: bytes, data: bytes, count: nat, lun: nat): (Sys, BlockResult)
    requires ValidDev(s.dev)
  {
    var (s1, o) := CommandOut(s, cdb, data, lun);
    (s1, if !o.Done? || |o.csw| != 13 then NoAnswer(o)
         else if o.csw[12] != 0 then Failed(o.csw[12])
         else Wrote(count))
  }

  function ReadBlocks(s: Sys, lba: nat, count: nat, blockSize: nat, lun: nat): (Sys, BlockResult)
    requires ValidDev(s.dev)
  {
    if !Cdb10Fits(lba, count) then (s, TooBig)
    else ReadWith(s, Cdb10(OP_READ_10, lba, count), Span(count, blockSize), lun)
  }

  function WriteBlocks(s: Sys, lba: nat, data: bytes, blockSize: nat, lun: nat): (Sys, BlockResult)
    requires ValidDev(s.dev) && blockSize > 0
  {
    var count := CountBlocks(|data|, blockSize);
    if !Cdb10Fits(lba, count) then (s, TooBig)
    else WriteWith(s, Cdb10(OP_WRITE_10, lba, count), data, count, lun)
  }

  lemma Cdb10Parses(opcode: byte, lba: nat, count: nat)
    requires Cdb10Fits(lba, count) && opcode != OP_READ_12 && opcode != OP_WRITE_12
    ensures var cdb := Cdb10(opcode, lba, count); |cdb| == 10 && cdb[0] == opcode && LbaCount(cdb) == (lba, count)
  {
    var cdb := Cdb10(opcode, lba, count);
    var head := [opcode, 0] + ToBE(lba, 4);
    assert cdb == head + [0] + ToBE(count, 2) + [0];
    assert head[2..6] == ToBE(lba, 4) && cdb[2..6] == head[2..6];
    assert cdb[7..9] == ToBE(count, 2);
    BERoundTrip(lba, 4);
    BERoundTrip(count, 2);
  }

  ghost predicate Ready(s: Sys, lun: nat, length: nat) {
    && Quiescent(s) && AllValid(s.dev.units)
    && lun < |s.dev.units| && s.tag + 1 < Pow256(4) && length < Pow256(4)
  }

  /** What read_blocks and write_blocks should do to plain units. */
  function ReadMeaning(units: seq<Unit>, lun: nat, lba: nat, count: nat): (seq<Unit>, BlockResult)
    requires lun < |units|
  {
    var u := units[lun];
    if lba + count > u.numBlocks then (units[lun := u.(sense := SENSE_LBA_RANGE)], Failed(1))
    else (units, Read(Blocks(u, lba, count)))
  }

  /** The length of the whole blocks in `n` bytes. */
  function WholeBlocks(n: nat, blockSize: nat): (r: nat)
    requires blockSize > 0
    ensures r <= n
  {
    WholeBlocksFit(n, blockSize);
    Span(CountBlocks(n, blockSize), blockSize)
  }

  function WriteMeaning(units: seq<Unit>, lun: nat, lba: nat, data: bytes): (seq<Unit>, BlockResult)
    requires lun < |units| && ValidUnit(units[lun])
  {
    var u := units[lun];
    var count := CountBlocks(|data|, u.blockSize);
    if u.readOnly then (units[lun := u.(sense := SENSE_WRITE_PROTECT)], Failed(1))
    else if lba + count > u.numBlocks then (units[lun := u.(sense := SENSE_LBA_RANGE)], Failed(1))
    else
      InRange(u, lba, count);
      (units[lun := Store(u, lba, data[..WholeBlocks(|data|, u.blockSize)])], Wrote(count))
  }

  predicate Reads(cdb: bytes) {
    0 < |cdb| <= 16 && (cdb[0] == OP_READ_10 || cdb[0] == OP_READ_12)
  }

  predicate Writes(cdb: bytes) {
    0 < |cdb| <= 16 && (cdb[0] == OP_WRITE_10 || cdb[0] == OP_WRITE_12)
  }

  lemma DecideRead(u: Unit, cdb: bytes, lba: nat, count: nat)
    requires u.numBlocks >= 1 && Reads(cdb) && LbaCount(cdb) == (lba, count)
    ensures Decide(u, cdb) == if lba + count > u.numBlocks then Refuse(SENSE_LBA_RANGE) else Send(Blocks(u, lba, count))
    ensures AfterDecide(u, cdb) == u
  {
  }

  lemma BlocksLength(u: Unit, lba: nat, count: nat)
    requires ValidUnit(u) && lba + count <= u.numBlocks
    ensures |Blocks(u, lba, count)| == Span(count, u.blockSize)
  {
    InRange(u, lba, count);
  }

  lemma ReadEffect(units: seq<Unit>, lun: nat, cdb: bytes, lba: nat, count: nat)
    requires AllValid(units) && lun < |units| <= 16
    requires Reads(cdb) && LbaCount(cdb) == (lba, count)
    ensures var room := Span(count, units[lun].blockSize);
      var e := Abstract(units, lun, cdb, room, []);
      && FitIn(units, lun, cdb, room)
      && ReadMeaning(units, lun, lba, count)
         == (e.units, if e.status != 0 then Failed(e.status) else Read(e.data))
  {
    hide Decide, Blocks, AfterDecide, LbaCount, Span;
    var u := units[lun];
    DecideRead(u, cdb, lba, count);
    if lba + count <= u.numBlocks {
      BlocksLength(u, lba, count);
      assert units[lun := u] == units;
    }
  }

  /** Any read command is a slice of the unit's image, or fails on that unit alone. */
  lemma ReadIsSlice(s: Sys, cdb: bytes, lba: nat, count: nat, lun: nat)
    requires lun < |s.dev.units| && Reads(cdb) && LbaCount(cdb) == (lba, count)
    requires Ready(s, lun, Span(count, s.dev.units[lun].blockSize))
    ensures var (s', r) := ReadWith(s, cdb, Span(count, s.dev.units[lun].blockSize), lun);
      && Quiescent(s') && s'.tag == s.tag + 1
      && (s'.dev.units, r) == ReadMeaning(s.dev.units, lun, lba, count)
  {
    hide CommandIn, Abstract, FitIn, ReadMeaning, Csw, Decide, LbaCount, Span;
    var u := s.dev.units[lun];
    ReadEffect(s.dev.units, lun, cdb, lba, count);
    CommandInRefines(s, cdb, Span(count, u.blockSize), lun);
    var e := Abstract(s.dev.units, lun, cdb, Span(count, u.blockSize), []);
    CswShape(ToLE(s.tag + 1, 4), e.residue, e.status);
  }

  /** read_blocks: READ(10). */
  lemma ReadBlocksIsSlice(s: Sys, lba: nat, count: nat, lun: nat)
    requires lun < |s.dev.units| && Cdb10Fits(lba, count)
    requires Ready(s, lun, Span(count, s.dev.units[lun].blockSize))
    ensures var (s', r) := ReadBlocks(s, lba, count, s.dev.units[lun].blockSize, lun);
      && Quiescent(s') && s'.tag == s.tag + 1
      && (s'.dev.units, r) == ReadMeaning(s.dev.units, lun, lba, count)
  {
    hide ReadWith, ReadMeaning, Quiescent, LbaCount, Cdb10, Span;
    Cdb10Parses(OP_READ_10, lba, count);
    ReadIsSlice(s, Cdb10(OP_READ_10, lba, count), lba, count, lun);
  }

  /** READ(12), for every address and count its fields hold. */
  lemma Read12IsSlice(s: Sys, lba: nat, count: nat, lun: nat)
    requires lun < |s.dev.units| && Cdb12Fits(lba, count)
    requires Ready(s, lun, Span(count, s.dev.units[lun].blockSize))
    ensures var length := Span(count, s.dev.units[lun].blockSize);
      var (s', r) := ReadWith(s, Cdb12(OP_READ_12, lba, count), length, lun);
      && Quiescent(s') && s'.tag == s.tag + 1
      && (s'.dev.units, r) == ReadMeaning(s.dev.units, lun, lba, count)
  {
    hide ReadWith, ReadMeaning, Quiescent, LbaCount, Cdb12, Span;
    Cdb12Parses(OP_READ_12, lba, count);
    ReadIsSlice(s, Cdb12(OP_READ_12, lba, count), lba, count, lun);
  }

  lemma EnactAwait(units: seq<Unit>, k: nat, cdb: bytes, lba: nat, count: nat, data: bytes)
    requires k < |units| && ValidUnit(units[k]) && cdb != []
    requires LbaCount(cdb) == (lba, count) && lba + count <= units[k].numBlocks
    requires Span(count, units[k].blockSize) <= |data|
    ensures Span(lba, units[k].blockSize) + Span(count, units[k].blockSize) <= |units[k].image|
    ensures Enact(units, k, cdb, |data|, data, Await)
         == Effect(units[k := Store(units[k], lba, data[..Span(count, units[k].blockSize)])], [], 0, 0)
  {
    hide LbaCount, Span, Store;
    InRange(units[k], lba, count);
  }

  lemma AbstractIsEnact(units: seq<Unit>, lun: nat, cdb: bytes, room: nat, payload: bytes, action: Action)
    requires AllValid(units) && lun < |units| <= 16 && Decide(units[lun], cdb) == action
    requires action.Await? ==> cdb != [] && LbaCount(cdb).0 + LbaCount(cdb).1 <= units[lun].numBlocks
    ensures Abstract(units, lun, cdb, room, payload) == Enact(units, lun, cdb, room, payload, action)
  {
    hide Decide, Enact, LbaCount;
  }

  lemma WriteEffect(units: seq<Unit>, lun: nat, cdb: bytes, lba: nat, data: bytes)
    requires AllValid(units) && lun < |units| <= 16 && data != [] && ValidUnit(units[lun])
    requires Writes(cdb)
    requires LbaCount(cdb) == (lba, CountBlocks(|data|, units[lun].blockSize))
    ensures var e := Abstract(units, lun, cdb, |data|, data);
      WriteMeaning(units, lun, lba, data)
      == (e.units, if e.status != 0 then Failed(e.status) else Wrote(CountBlocks(|data|, units[lun].blockSize)))
  {
    hide Abstract, Decide, LbaCount, CountBlocks, Span, Store;
    var u := units[lun];
    var count := CountBlocks(|data|, u.blockSize);
    DecideWrite(u, cdb, lba, count);
    AbstractIsEnact(units, lun, cdb, |data|, data, Decide(u, cdb));
    if !u.readOnly && lba + count <= u.numBlocks {
      WholeBlocksFit(|data|, u.blockSize);
      EnactAwait(units, lun, cdb, lba, count, data);
    }
  }

  lemma WriteFits(units: seq<Unit>, lun: nat, cdb: bytes, lba: nat, data: bytes)
    requires AllValid(units) && lun < |units| <= 16 && data != [] && units[lun].blockSize > 0
    requires Writes(cdb)
    requires LbaCount(cdb) == (lba, CountBlocks(|data|, units[lun].blockSize))
    ensures FitOut(units, lun, cdb, data) && !Misread(units, lun, cdb, data)
  {
    hide Decide, LbaCount, CountBlocks, Span;
    DecideWrite(units[lun], cdb, lba, CountBlocks(|data|, units[lun].blockSize));
    WholeBlocksFit(|data|, units[lun].blockSize);
  }

  /** Any write command with its data replaces exactly the whole blocks given, or fails on that unit alone. */
  lemma WriteUpdates(s: Sys, cdb: bytes, lba: nat, data: bytes, lun: nat)
    requires lun < |s.dev.units| && ValidUnit(s.dev.units[lun]) && data != [] && Ready(s, lun, |data|)
    requires Writes(cdb) && LbaCount(cdb) == (lba, CountBlocks(|data|, s.dev.units[lun].blockSize))
    ensures var (s', r) := WriteWith(s, cdb, data, CountBlocks(|data|, s.dev.units[lun].blockSize), lun);
      && Quiescent(s') && s'.tag == s.tag + 1
      && (s'.dev.units, r) == WriteMeaning(s.dev.units, lun, lba, data)
  {
    hide CommandOut, Abstract, FitOut, Misread, WriteMeaning, CountBlocks, Csw, Decide, LbaCount;
    WriteEffect(s.dev.units, lun, cdb, lba, data);
    WriteFits(s.dev.units, lun, cdb, lba, data);
    CommandOutRefines(s, cdb, data, lun);
    var e := Abstract(s.dev.units, lun, cdb, |data|, data);
    CswShape(ToLE(s.tag + 1, 4), e.residue, e.status);
  }

  /** write_blocks: WRITE(10). */
  lemma WriteBlocksUpdates(s: Sys, lba: nat, data: bytes, lun: nat)
    requires lun < |s.dev.units| && ValidUnit(s.dev.units[lun]) && data != []
    requires Ready(s, lun, |data|) && Cdb10Fits(lba, CountBlocks(|data|, s.dev.units[lun].blockSize))
    ensures var (s', r) := WriteBlocks(s, lba, data, s.dev.units[lun].blockSize, lun);
      && Quiescent(s') && s'.tag == s.tag + 1
      && (s'.dev.units, r) == WriteMeaning(s.dev.units, lun, lba, data)
  {
    hide WriteWith, WriteMeaning, Quiescent, LbaCount, Cdb10, CountBlocks;
    var count := CountBlocks(|data|, s.dev.units[lun].blockSize);
    Cdb10Parses(OP_WRITE_10, lba, count);
    WriteUpdates(s, Cdb10(OP_WRITE_10, lba, count), lba, data, lun);
  }

  /** WRITE(12), for every address and count its fields hold. */
  lemma Write12Updates(s: Sys, lba: nat, data: bytes, lun: nat)
    requires lun < |s.dev.units| && ValidUnit(s.dev.units[lun]) && data != []
    requires Ready(s, lun, |data|) && Cdb12Fits(lba, CountBlocks(|data|, s.dev.units[lun].blockSize))
    ensures var count := CountBlocks(|data|, s.dev.units[lun].blockSize);
      var (s', r) := WriteWith(s, Cdb12(OP_WRITE_12, lba, count), data, count, lun);
      && Quiescent(s') && s'.tag == s.tag + 1
      && (s'.dev.units, r) == WriteMeaning(s.dev.units, lun, lba, data)
  {
    hide WriteWith, WriteMeaning, Quiescent, LbaCount, Cdb12, CountBlocks;
    var count := CountBlocks(|data|, s.dev.units[lun].blockSize);
    Cdb12Parses(OP_WRITE_12, lba, count);
    WriteUpdates(s, Cdb12(OP_WRITE_12, lba, count), lba, data, lun);
  }

  lemma DecideWrite(u: Unit, cdb: bytes, lba: nat, count: nat)
    requires u.numBlocks >= 1 && Writes(cdb) && LbaCount(cdb) == (lba, count)
    ensures Decide(u, cdb) == if u.readOnly then Refuse(SENSE_WRITE_PROTECT)
                              else if lba + count > u.numBlocks then Refuse(SENSE_LBA_RANGE) else Await
  {
  }

  /** A byte of any blocks read after a write: the written one inside the written blocks, the old one elsewhere. */
  lemma StoredBlocks(u: Unit, lba: nat, data: bytes, lba2: nat, count2: nat, j: nat)
    requires ValidUnit(u) && Span(lba, u.blockSize) + |data| <= |u.image|
    requires lba2 + count2 <= u.numBlocks && j < Span(count2, u.blockSize)
    ensures var r := Blocks(Store(u, lba, data), lba2, count2);
      var at, i := Span(lba, u.blockSize), Span(lba2, u.blockSize) + j;
      && |r| == Span(count2, u.blockSize) && i < |u.image|
      && r[j] == if at <= i < at + |data| then data[i - at] else u.image[i]
  {
    hide Splice, Span, ValidUnit, Slice;
    InRange(u, lba2, count2);
    var at, a, b := Span(lba, u.blockSize), Span(lba2, u.blockSize), Span(lba2 + count2, u.blockSize);
    var image := Splice(u.image, at, data);
    SlicedSplice(u.image, at, data, a, b, j);
    assert Store(u, lba, data) == u.(image := image);
    assert Blocks(Store(u, lba, data), lba2, count2) == Slice(image, a, b);
  }

  /** Writing whole blocks in range to a writable unit stores exactly the data. */
  lemma WholeWrite(units: seq<Unit>, lun: nat, lba: nat, data: bytes)
    requires lun < |units| && ValidUnit(units[lun]) && !units[lun].readOnly
    requires WholeBlocks(|data|, units[lun].blockSize) == |data|
    requires lba + CountBlocks(|data|, units[lun].blockSize) <= units[lun].numBlocks
    ensures Span(lba, units[lun].blockSize) + |data| <= |units[lun].image|
    ensures WriteMeaning(units, lun, lba, data)
         == (units[lun := Store(units[lun], lba, data)], Wrote(CountBlocks(|data|, units[lun].blockSize)))
  {
    var u := units[lun];
    InRange(u, lba, CountBlocks(|data|, u.blockSize));
    assert data[..|data|] == data;
  }

  /** A read after such a write sees the stored data on that unit (byte by byte in
      StoredBlocks) and the old blocks on any other. */
  lemma MeaningReadAfterWrite(units: seq<Unit>, lun: nat, lba: nat, data: bytes, lun2: nat, lba2: nat, count2: nat)
    requires lun < |units| && lun2 < |units| && ValidUnit(units[lun]) && !units[lun].readOnly
    requires WholeBlocks(|data|, units[lun].blockSize) == |data|
    requires lba + CountBlocks(|data|, units[lun].blockSize) <= units[lun].numBlocks
    requires lba2 + count2 <= units[lun2].numBlocks
    ensures Span(lba, units[lun].blockSize) + |data| <= |units[lun].image|
    ensures var (units1, w) := WriteMeaning(units, lun, lba, data);
      var v := if lun2 == lun then Store(units[lun], lba, data) else units[lun2];
      && w == Wrote(CountBlocks(|data|, units[lun].blockSize))
      && ReadMeaning(units1, lun2, lba2, count2) == (units1, Read(Blocks(v, lba2, count2)))
  {
    hide WriteMeaning, Blocks;
    WholeWrite(units, lun, lba, data);
  }

  /** A block address or count that does not fit its field is refused before anything is sent, and nothing else is. */
  lemma TooBigExactly(s: Sys, lba: nat, count: nat, data: bytes, blockSize: nat, lun: nat)
    requires ValidDev(s.dev) && blockSize > 0
    ensures ReadBlocks(s, lba, count, blockSize, lun).1 == TooBig <==> lba >= 0x1_0000_0000 || count >= 0x1_0000
    ensures lba >= 0x1_0000_0000 || count >= 0x1_0000 ==> ReadBlocks(s, lba, count, blockSize, lun).0 == s
    ensures WriteBlocks(s, lba, data, blockSize, lun).1 == TooBig
       <==> lba >= 0x1_0000_0000 || |data| / blockSize >= 0x1_0000
    ensures lba >= 0x1_0000_0000 || |data| / blockSize >= 0x1_0000 ==> WriteBlocks(s, lba, data, blockSize, lun).0 == s
  {
    hide CommandIn, CommandOut, CountBlocks, Cdb10, Span;
    CountBlocksIsQuotient(|data|, blockSize);
    assert Pow256(4) == 0x1_0000_0000 && Pow256(2) == 0x1_0000;
  }

  /** The same through the whole stack: host driver, CBWs, halts, device and CSWs. */
  lemma StackReadAfterWrite(s: Sys, lun: nat, lba: nat, data: bytes, lun2: nat, lba2: nat, count2: nat)
    requires lun < |s.dev.units| && lun2 < |s.dev.units| && data != []
    requires ValidUnit(s.dev.units[lun]) && ValidUnit(s.dev.units[lun2])
    requires Ready(s, lun, |data|) && Cdb10Fits(lba, CountBlocks(|data|, s.dev.units[lun].blockSize))
    requires s.tag + 2 < Pow256(4) && Cdb10Fits(lba2, count2)
    requires Span(count2, s.dev.units[lun2].blockSize) < Pow256(4)
    ensures var (s1, w) := WriteBlocks(s, lba, data, s.dev.units[lun].blockSize, lun);
      var (s2, r) := ReadBlocks(s1, lba2, count2, s.dev.units[lun2].blockSize, lun2);
      var (units1, w') := WriteMeaning(s.dev.units, lun, lba, data);
      && Quiescent(s2) && w == w' && s1.dev.units == units1
      && (s2.dev.units, r) == ReadMeaning(units1, lun2, lba2, count2)
  {
    hide WriteBlocks, ReadBlocks, ReadMeaning;
    WriteBlocksUpdates(s, lba, data, lun);
    var s1 := WriteBlocks(s, lba, data, s.dev.units[lun].blockSize, lun).0;
    ValidUnitsStay(s1);
    assert s1.dev.units[lun2].blockSize == s.dev.units[lun2].blockSize;
    ReadBlocksIsSlice(s1, lba2, count2, lun2);
  }

  lemma ValidUnitsStay(s1: Sys)
    requires Quiescent(s1)
    ensures AllValid(s1.dev.units)
  {
    forall i | 0 <= i < |s1.dev.units| ensures ValidUnit(s1.dev.units[i]) && s1.dev.units[i].numBlocks >= 1 {
      assert ValidUnit(s1.dev.units[i]);
    }
  }
}
