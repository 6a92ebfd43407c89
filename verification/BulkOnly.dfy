/** The device side of Bulk-Only Transport (usbip/classes/device/msc.py, class MSC):
    CBW parsing, SCSI dispatch, data phases, halts and CSWs, over two UrbPipe pipes. */
module BulkOnly {
  import opened Bytes
  import opened UrbPipe

  const OP_TEST_UNIT_READY := 0x00
  const OP_REZERO_UNIT := 0x01
  const OP_REQUEST_SENSE := 0x03
  const OP_FORMAT_UNIT := 0x04
  const OP_INQUIRY := 0x12
  const OP_MODE_SENSE_6 := 0x1A
  const OP_START_STOP_UNIT := 0x1B
  const OP_PREVENT_ALLOW := 0x1E
  const OP_READ_FORMAT_CAPACITIES := 0x23
  const OP_READ_CAPACITY_10 := 0x25
  const OP_READ_10 := 0x28
  const OP_WRITE_10 := 0x2A
  const OP_SEEK_10 := 0x2B
  const OP_VERIFY_10 := 0x2F
  const OP_SYNC_CACHE_10 := 0x35
  const OP_READ_TOC := 0x43
  const OP_GET_CONFIGURATION := 0x46
  const OP_GET_EVENT_STATUS := 0x4A
  const OP_MODE_SENSE_10 := 0x5A
  const OP_SERVICE_ACTION_IN_16 := 0x9E
  const OP_READ_12 := 0xA8
  const OP_WRITE_12 := 0xAA

  const CBW_SIGNATURE: bytes := [0x55, 0x53, 0x42, 0x43]
  const CSW_SIGNATURE: bytes := [0x55, 0x53, 0x42, 0x53]

  datatype Sense = Sense(key: byte, asc: byte, ascq: byte)

  const SENSE_OK := Sense(0x00, 0x00, 0x00)
  const SENSE_INVALID_COMMAND := Sense(0x05, 0x20, 0x00)
  const SENSE_INVALID_FIELD := Sense(0x05, 0x24, 0x00)
  const SENSE_LBA_RANGE := Sense(0x05, 0x21, 0x00)
  const SENSE_LUN_NOT_SUPPORTED := Sense(0x05, 0x25, 0x00)
  const SENSE_WRITE_PROTECT := Sense(0x07, 0x27, 0x00)

  /** Payloads that depend only on how a unit presents itself. */
  datatype Tables = Tables(inquiry: bytes, vpd: map<int, bytes>, formats: bytes,
                           mode6: map<int, bytes>, mode10: map<int, bytes>,
                           toc: bytes, configuration: bytes)

  /** One logical unit; `image` holds the store's blocks one after the other. */
  datatype Unit = Unit(image: bytes, blockSize: nat, numBlocks: nat, readOnly: bool,
                       cdrom: bool, sense: Sense, tables: Tables)

  /** READ CAPACITY reports the last block and the block size in four bytes each. */
  ghost predicate ValidUnit(u: Unit) {
    && 1 <= u.blockSize < Pow256(4) && 1 <= u.numBlocks <= Pow256(4)
    && Span(u.numBlocks, u.blockSize) <= |u.image|
  }

  // ---- SCSI --------------------------------------------------------------------

  /** What one command asks of the transport. */
  datatype Action =
    | Pass                   // nothing to send: CSW only
    | Send(data: bytes)      // device-to-host data, then the CSW
    | Refuse(sense: Sense)   // CHECK CONDITION
    | Await                  // host-to-device data first
    | Crash                  // the handler indexes past the end of a short CDB

  function LbaCount(cdb: bytes): (nat, nat)
    requires cdb != []
  {
    (FromBE(Slice(cdb, 2, 6)),
     if cdb[0] == OP_READ_12 || cdb[0] == OP_WRITE_12 then FromBE(Slice(cdb, 6, 10)) else FromBE(Slice(cdb, 7, 9)))
  }

  function SenseData(s: Sense): bytes {
    [0x70, 0, s.key, 0, 0, 0, 0, 10, 0, 0, 0, 0, s.asc, s.ascq, 0, 0, 0, 0]
  }

  function Blocks(u: Unit, lba: nat, count: nat): bytes {
    Slice(u.image, Span(lba, u.blockSize), Span(lba + count, u.blockSize))
  }

  function Page(pages: map<int, bytes>, page: int): bytes {
    if page in pages then pages[page] else []
  }

  function NoOps(): set<int> {
    {OP_PREVENT_ALLOW, OP_START_STOP_UNIT, OP_SYNC_CACHE_10, OP_REZERO_UNIT, OP_SEEK_10, OP_VERIFY_10}
  }

  function Decide(u: Unit, cdb: bytes): Action
    requires u.numBlocks >= 1
  {
    if cdb == [] then Crash else
    var op := cdb[0];
    if op == OP_TEST_UNIT_READY then Pass
    else if op == OP_INQUIRY then
      if |cdb| < 2 then Crash
      else if cdb[1] % 2 == 0 then Send(u.tables.inquiry)
      else if |cdb| < 3 then Crash
      else if cdb[2] in u.tables.vpd then Send(u.tables.vpd[cdb[2]])
      else Refuse(SENSE_INVALID_FIELD)
    else if op == OP_READ_FORMAT_CAPACITIES then Send(u.tables.formats)
    else if op == OP_READ_CAPACITY_10 then Send(ToBE(u.numBlocks - 1, 4) + ToBE(u.blockSize, 4))
    else if op == OP_SERVICE_ACTION_IN_16 && |cdb| < 2 then Crash
    else if op == OP_SERVICE_ACTION_IN_16 && cdb[1] % 32 == 0x10 then
      Send(ToBE(u.numBlocks - 1, 8) + ToBE(u.blockSize, 4) + seq(20, i => 0))
    else if op == OP_READ_10 || op == OP_READ_12 then
      var (lba, count) := LbaCount(cdb);
      if lba + count > u.numBlocks then Refuse(SENSE_LBA_RANGE) else Send(Blocks(u, lba, count))
    else if op == OP_WRITE_10 || op == OP_WRITE_12 then
      var (lba, count) := LbaCount(cdb);
      if u.readOnly then Refuse(SENSE_WRITE_PROTECT)
      else if lba + count > u.numBlocks then Refuse(SENSE_LBA_RANGE)
      else Await
    else if op == OP_REQUEST_SENSE then Send(SenseData(u.sense))
    else if op == OP_MODE_SENSE_6 || op == OP_MODE_SENSE_10 then
      if |cdb| < 3 then Crash
      else Send(Page(if op == OP_MODE_SENSE_10 then u.tables.mode10 else u.tables.mode6, cdb[2] % 64))
    else if op == OP_FORMAT_UNIT then if u.readOnly then Refuse(SENSE_WRITE_PROTECT) else Pass
    else if op in NoOps() then Pass
    else if op == OP_READ_TOC && u.cdrom then Send(u.tables.toc)
    else if op == OP_GET_CONFIGURATION && u.cdrom then Send(u.tables.configuration)
    else if op == OP_GET_EVENT_STATUS then Send([0x00, 0x06, 0x80, 0x00, 0x00, 0x00, 0x00, 0x00])
    else Refuse(SENSE_INVALID_COMMAND)
  }

  /** Reporting sense data clears it. */
  function AfterDecide(u: Unit, cdb: bytes): Unit {
    if cdb != [] && cdb[0] == OP_REQUEST_SENSE then u.(sense := SENSE_OK) else u
  }

  /** store.write(lba, count, data) with data of exactly count blocks, in range. */
  function Store(u: Unit, lba: nat, data: bytes): Unit
    requires Span(lba, u.blockSize) + |data| <= |u.image|
  {
    u.(image := Splice(u.image, Span(lba, u.blockSize), data))
  }

  // ---- the transport -------------------------------------------------------------

  /** A write whose data phase is still arriving. */
  datatype Pending = Pending(lun: nat, tag: bytes, lba: nat, count: nat, need: nat, buf: bytes)

  /** `alive` turns false when an exception escapes the handler and ends the connection. */
  datatype Dev = Dev(units: seq<Unit>, cbwIn: bool, pend: Option<Pending>,
                     inp: Pipe, outp: Pipe, alive: bool)

  ghost predicate ValidDev(d: Dev) {
    && 1 <= |d.units| <= 16
    && (forall i :: 0 <= i < |d.units| ==> ValidUnit(d.units[i]))
    && (d.pend.Some? ==>
          var p := d.pend.value;
          && p.lun < |d.units| && |p.tag| == 4
          && p.need == Span(p.count, d.units[p.lun].blockSize)
          && p.lba + p.count <= d.units[p.lun].numBlocks
          && !d.units[p.lun].readOnly)
  }

  function Csw(tag: bytes, residue: nat, status: byte): bytes {
    CSW_SIGNATURE + tag + ToLE(residue, 4) + [status]
  }

  function SendCsw(d: Dev, tag: bytes, residue: nat, status: byte): Dev {
    d.(inp := Write(d.inp, Csw(tag, residue, status)).0)
  }

  function StallDataPhase(d: Dev, dlen: nat): Dev {
    if dlen == 0 then d
    else if d.cbwIn then d.(inp := Stall(d.inp).0)
    else d.(outp := Stall(d.outp).0)
  }

  function DataIn(d: Dev, tag: bytes, dlen: nat, data: bytes): Dev {
    var send := Slice(data, 0, dlen);
    var d1 := if send != [] then d.(inp := Write(d.inp, send).0) else StallDataPhase(d, dlen);
    SendCsw(d1, tag, if |send| <= dlen then dlen - |send| else 0, 0)
  }

  function Fail(d: Dev, lun: nat, tag: bytes, dlen: nat, sense: Sense): Dev
    requires lun < |d.units|
  {
    SendCsw(StallDataPhase(d.(units := d.units[lun := d.units[lun].(sense := sense)]), dlen), tag, dlen, 1)
  }

  /** What the transport does about an action; Dispatch is this on the decided one. */
  function Perform(d: Dev, lun: nat, tag: bytes, dlen: nat, cdb: bytes, action: Action): Dev
    requires lun < |d.units| && (action.Await? ==> cdb != [])
  {
    match action
    case Crash => d.(alive := false)
    case Pass => SendCsw(d, tag, 0, 0)
    case Send(data) => DataIn(d.(units := d.units[lun := AfterDecide(d.units[lun], cdb)]), tag, dlen, data)
    case Refuse(sense) => Fail(d, lun, tag, dlen, sense)
    case Await =>
      var (lba, count) := LbaCount(cdb);
      d.(pend := Some(Pending(lun, tag, lba, count, Span(count, d.units[lun].blockSize), [])))
  }

  lemma AwaitMeansWritable(u: Unit, cdb: bytes)
    requires u.numBlocks >= 1
    ensures Decide(u, cdb).Await? <==>
            && cdb != [] && (cdb[0] == OP_WRITE_10 || cdb[0] == OP_WRITE_12)
            && !u.readOnly && LbaCount(cdb).0 + LbaCount(cdb).1 <= u.numBlocks
  {
  }

  function Dispatch(d: Dev, lun: nat, tag: bytes, dlen: nat, cdb: bytes): Dev
    requires lun < |d.units| && d.units[lun].numBlocks >= 1
  {
    AwaitMeansWritable(d.units[lun], cdb);
    Perform(d, lun, tag, dlen, cdb, Decide(d.units[lun], cdb))
  }

  predicate IsCbw(data: bytes) {
    |data| == 31 && data[..4] == CBW_SIGNATURE
  }

  function HandleCbw(d: Dev, cbw: bytes): Dev
    requires ValidDev(d)
  {
    if !IsCbw(cbw) then d
    else
      var tag, dlen, lun := cbw[4..8], FromLE(cbw[8..12]), cbw[13] % 16;
      var cdb := Slice(cbw, 15, 15 + cbw[14] % 32);
      var d1 := d.(cbwIn := cbw[12] >= 0x80);
      if lun >= |d.units| then Fail(d1, 0, tag, dlen, SENSE_LUN_NOT_SUPPORTED)
      else Dispatch(d1, lun, tag, dlen, cdb)
  }

  lemma PendingFits(d: Dev)
    requires ValidDev(d) && d.pend.Some?
    ensures var p := d.pend.value; Span(p.lba, d.units[p.lun].blockSize) + p.need <= |d.units[p.lun].image|
  {
    var p := d.pend.value;
    var u := d.units[p.lun];
    assert ValidUnit(u);
    SpanAdd(p.lba, p.count, u.blockSize);
    SpanMonotone(p.lba + p.count, u.numBlocks, u.blockSize);
  }

  function RecvWrite(d: Dev, data: bytes): Dev
    requires ValidDev(d) && d.pend.Some?
  {
    var p := d.pend.value;
    var buf := p.buf + data;
    if |buf| < p.need then d.(pend := Some(p.(buf := buf)))
    else
      PendingFits(d);
      var u := Store(d.units[p.lun], p.lba, buf[..p.need]);
      SendCsw(d.(units := d.units[p.lun := u]), p.tag, 0, 0).(pend := None)
  }

  function OnOut(d: Dev, data: bytes): Dev
    requires ValidDev(d)
  {
    if d.pend.Some? then RecvWrite(d, data) else HandleCbw(d, data)
  }

  lemma StoreKeepsSize(u: Unit, lba: nat, data: bytes)
    requires Span(lba, u.blockSize) + |data| <= |u.image|
    ensures |Store(u, lba, data).image| == |u.image|
    ensures Store(u, lba, data) == u.(image := Store(u, lba, data).image)
  {
  }

  predicate SettledPipes(d: Dev) {
    Settled(d.inp) && Settled(d.outp)
  }

  lemma PerformSettles(d: Dev, lun: nat, tag: bytes, dlen: nat, cdb: bytes, action: Action)
    requires lun < |d.units| && (action.Await? ==> cdb != []) && SettledPipes(d)
    ensures SettledPipes(Perform(d, lun, tag, dlen, cdb, action))
  {
    hide Write, Csw, LbaCount;
    match action {
      case Crash =>
      case Await =>
      case Pass => WriteSettles(d.inp, Csw(tag, 0, 0));
      case Send(data) =>
        var sent := Slice(data, 0, dlen);
        var inp := if sent != [] then Write(d.inp, sent).0 else StallDataPhase(d, dlen).inp;
        WriteSettles(d.inp, sent);
        WriteSettles(inp, Csw(tag, if |sent| <= dlen then dlen - |sent| else 0, 0));
      case Refuse(sense) => FailSettles(d, lun, tag, dlen, sense);
    }
  }

  lemma FailSettles(d: Dev, lun: nat, tag: bytes, dlen: nat, sense: Sense)
    requires lun < |d.units| && SettledPipes(d)
    ensures SettledPipes(Fail(d, lun, tag, dlen, sense))
  {
    hide Write, Csw;
    WriteSettles(StallDataPhase(d, dlen).inp, Csw(tag, dlen, 1));
  }

  lemma OnOutSettles(d: Dev, data: bytes)
    requires ValidDev(d) && SettledPipes(d)
    ensures SettledPipes(OnOut(d, data))
  {
    hide Write, Csw, Decide, Perform, Fail, LbaCount;
    if d.pend.Some? {
      WriteSettles(d.inp, Csw(d.pend.value.tag, 0, 0));
    } else if IsCbw(data) {
      var tag, dlen, lun, cdb := data[4..8], FromLE(data[8..12]), data[13] % 16, Slice(data, 15, 15 + data[14] % 32);
      var d1 := d.(cbwIn := data[12] >= 0x80);
      if lun >= |d.units| {
        FailSettles(d1, 0, tag, dlen, SENSE_LUN_NOT_SUPPORTED);
      } else {
        assert ValidUnit(d.units[lun]);
        AwaitMeansWritable(d.units[lun], cdb);
        PerformSettles(d1, lun, tag, dlen, cdb, Decide(d.units[lun], cdb));
      }
    }
  }

  /** Whatever arrives on the OUT pipe, the device stays valid: stores keep their size and a pending
      write stays inside its unit, which is never a read-only one; and its pipes stay settled. */
  lemma OnOutKeepsValid(d: Dev, data: bytes)
    requires ValidDev(d)
    ensures ValidDev(OnOut(d, data))
    ensures SettledPipes(d) ==> SettledPipes(OnOut(d, data))
  {
    if SettledPipes(d) {
      OnOutSettles(d, data);
    }
    UnitsStayValid(d, data);
  }

  lemma UnitsStayValid(d: Dev, data: bytes)
    requires ValidDev(d)
    ensures ValidDev(OnOut(d, data))
  {
    if d.pend.Some? {
      var p := d.pend.value;
      if |p.buf + data| >= p.need {
        PendingFits(d);
        StoreKeepsSize(d.units[p.lun], p.lba, (p.buf + data)[..p.need]);
        assert ValidUnit(d.units[p.lun]);
      }
    } else if IsCbw(data) {
      var lun, cdb := data[13] % 16, Slice(data, 15, 15 + data[14] % 32);
      assert ValidUnit(d.units[0]);
      if lun < |d.units| {
        assert ValidUnit(d.units[lun]);
        DispatchKeepsValid(d.(cbwIn := data[12] >= 0x80), lun, data[4..8], FromLE(data[8..12]), cdb);
      }
    }
  }

  /** Same medium: only sense data may differ. */
  predicate SameMedium(u: Unit, v: Unit) {
    u == v.(sense := u.sense)
  }

  lemma PerformKeepsMedia(d: Dev, lun: nat, tag: bytes, dlen: nat, cdb: bytes, action: Action)
    requires lun < |d.units| && (action.Await? ==> cdb != [])
    ensures var d' := Perform(d, lun, tag, dlen, cdb, action);
      && |d'.units| == |d.units|
      && (forall i :: 0 <= i < |d.units| ==> SameMedium(d'.units[i], d.units[i]))
      && (!action.Await? ==> d'.pend == d.pend)
  {
  }

  lemma DispatchKeepsValid(d: Dev, lun: nat, tag: bytes, dlen: nat, cdb: bytes)
    requires ValidDev(d) && d.pend.None? && lun < |d.units| && |tag| == 4
    requires ValidUnit(d.units[lun])
    ensures ValidDev(Dispatch(d, lun, tag, dlen, cdb))
  {
    var action := Decide(d.units[lun], cdb);
    AwaitMeansWritable(d.units[lun], cdb);
    PerformKeepsMedia(d, lun, tag, dlen, cdb, action);
    var d' := Perform(d, lun, tag, dlen, cdb, action);
    forall i | 0 <= i < |d.units| ensures ValidUnit(d'.units[i]) {
      assert ValidUnit(d.units[i]) && SameMedium(d'.units[i], d.units[i]);
    }
  }

  /** What one packet may do to a unit. */
  predicate Protected(d: Dev, d': Dev, i: nat)
    requires i < |d.units|
  {
    && |d'.units| == |d.units|
    && |d'.units[i].image| == |d.units[i].image|
    && d'.units[i].(sense := d.units[i].sense, image := d.units[i].image) == d.units[i]
    && (d'.units[i].image != d.units[i].image ==>
          !d.units[i].readOnly && d.pend.Some? && d.pend.value.lun == i && d'.pend.None?)
  }

  lemma PendingProtects(d: Dev, data: bytes, i: nat)
    requires ValidDev(d) && i < |d.units| && d.pend.Some?
    ensures Protected(d, OnOut(d, data), i)
  {
    hide Decide, Perform;
    var p := d.pend.value;
    if |p.buf + data| >= p.need {
      PendingFits(d);
      StoreKeepsSize(d.units[p.lun], p.lba, (p.buf + data)[..p.need]);
    }
  }

  lemma CommandProtects(d: Dev, data: bytes, i: nat)
    requires ValidDev(d) && i < |d.units| && d.pend.None?
    ensures Protected(d, OnOut(d, data), i)
  {
    hide Decide, Perform;
    if IsCbw(data) {
      assert ValidUnit(d.units[0]);
      var lun, cdb, d1 := data[13] % 16, Slice(data, 15, 15 + data[14] % 32), d.(cbwIn := data[12] >= 0x80);
      if lun < |d.units| {
        assert ValidUnit(d.units[lun]);
        AwaitMeansWritable(d.units[lun], cdb);
        PerformKeepsMedia(d1, lun, data[4..8], FromLE(data[8..12]), cdb, Decide(d.units[lun], cdb));
        assert SameMedium(OnOut(d, data).units[i], d.units[i]);
      }
    }
  }

  /** One packet changes a unit's blocks only by completing a write pending on it, so
      never those of a read-only unit; nothing changes a unit's geometry. */
  lemma OnOutProtects(d: Dev, data: bytes, i: nat)
    requires ValidDev(d) && i < |d.units|
    ensures Protected(d, OnOut(d, data), i)
  {
    hide OnOut, Protected;
    if d.pend.Some? {
      PendingProtects(d, data, i);
    } else {
      CommandProtects(d, data, i);
    }
  }

  // ---- OUT packets may be cut anywhere ------------------------------------------

  function OnOutAll(d: Dev, packets: seq<bytes>): Dev
    requires ValidDev(d)
    ensures ValidDev(OnOutAll(d, packets))
    decreases |packets|
  {
    if packets == [] then d
    else
      OnOutKeepsValid(d, packets[0]);
      OnOutAll(OnOut(d, packets[0]), packets[1..])
  }

  /** Data the write is still waiting for only accumulates. */
  lemma {:induction false} EmptyPacketsAreDropped(d: Dev, packets: seq<bytes>)
    requires ValidDev(d) && d.pend.None?
    requires Flatten(packets) == []
    ensures OnOutAll(d, packets) == d
  {
    if packets != [] {
      assert packets[0] == [];
      EmptyPacketsAreDropped(d, packets[1..]);
    }
  }

  /** A data phase of exactly the missing bytes gives the same device state (one store
      write, one CSW) however it is split into packets, empty ones included. */
  lemma {:induction false} WritePacketsAnySplit(d: Dev, packets: seq<bytes>)
    requires ValidDev(d) && d.pend.Some?
    requires var p := d.pend.value; |p.buf| < p.need && |p.buf| + |Flatten(packets)| == p.need
    ensures OnOutAll(d, packets) == OnOut(d, Flatten(packets))
    decreases |packets|
  {
    var p := d.pend.value;
    if packets != [] {
      var head, rest := packets[0], Flatten(packets[1..]);
      assert Flatten(packets) == head + rest;
      OnOutKeepsValid(d, head);
      Assoc(p.buf, head, rest);
      if |p.buf| + |head| < p.need {
        WritePacketsAnySplit(OnOut(d, head), packets[1..]);
      } else {
        assert rest == [] && head + rest == head;
        EmptyPacketsAreDropped(OnOut(d, head), packets[1..]);
      }
    }
  }
}
