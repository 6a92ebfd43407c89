/** The mass-storage objects as the source has them: the interface object that handles
    OUT packets (usbip/classes/device/msc.py, class MSC) over two Endpoint objects, and the
    host driver object (usbip/classes/host/msc.py, class MSCDriver), proved against the
    specification functions of BulkOnly, BulkOnlyHost and BlockStack. */
module MscObjects {
  import opened Bytes
  import opened UrbPipe
  import opened Endpoints
  import opened BulkOnly
  import opened BulkOnlyHost
  import BlockStack

  class Msc {
    const inEp: Endpoint
    const outEp: Endpoint
    var units: seq<Unit>
    var cbwIn: bool
    var write: Option<Pending>
    var alive: bool

    ghost function State(): Dev
      reads this, inEp, outEp
    {
      Dev(units, cbwIn, write, inEp.State(), outEp.State(), alive)
    }

    ghost predicate Valid()
      reads this, inEp, outEp
    {
      inEp != outEp && inEp.Valid() && outEp.Valid() && ValidDev(State())
    }

    /** What the helpers need: the endpoints alone. */
    ghost predicate Wired()
      reads this, inEp, outEp
    {
      inEp != outEp && inEp.Valid() && outEp.Valid()
    }

    constructor (units: seq<Unit>, mps: nat)
      requires 1 <= |units| <= 16 && forall i :: 0 <= i < |units| ==> ValidUnit(units[i])
      ensures Valid() && fresh(inEp) && fresh(outEp)
      ensures State() == Dev(units, false, None, EMPTY, EMPTY, true)
    {
      this.units, cbwIn, write, alive := units, false, None, true;
      inEp := new Endpoint(mps, false);
      outEp := new Endpoint(mps, false);
    }

    method SendCsw(tag: bytes, residue: nat, status: byte)
      requires Wired()
      modifies this, inEp
      ensures Wired() && State() == BulkOnly.SendCsw(old(State()), tag, residue, status)
    {
      var _ := inEp.Write(Csw(tag, residue, status));
    }

    /** Halt the pipe that owes the data, if any was promised. */
    method StallDataPhase(dlen: nat)
      requires Wired()
      modifies this, inEp, outEp
      ensures Wired() && State() == BulkOnly.StallDataPhase(old(State()), dlen)
    {
      if dlen == 0 {
        return;
      }
      if cbwIn {
        var _ := inEp.Stall();
      } else {
        var _ := outEp.Stall();
      }
    }

    method DataIn(tag: bytes, dlen: nat, data: bytes)
      requires Wired()
      modifies this, inEp, outEp
      ensures Wired() && State() == BulkOnly.DataIn(old(State()), tag, dlen, data)
    {
      var send := Slice(data, 0, dlen);
      if send != [] {
        var _ := inEp.Write(send);
      } else {
        StallDataPhase(dlen);
      }
      SendCsw(tag, if |send| <= dlen then dlen - |send| else 0, 0);
    }

    method Fail(lun: nat, tag: bytes, dlen: nat, sense: Sense)
      requires Wired() && lun < |units|
      modifies this, inEp, outEp
      ensures Wired() && State() == BulkOnly.Fail(old(State()), lun, tag, dlen, sense)
    {
      units := units[lun := units[lun].(sense := sense)];
      StallDataPhase(dlen);
      SendCsw(tag, dlen, 1);
    }

    /** Reads the unit's sense data and clears it. */
    method RequestSense(lun: nat) returns (data: bytes)
      requires Wired() && lun < |units|
      modifies this
      ensures Wired() && data == SenseData(old(units[lun].sense))
      ensures State() == old(State()).(units := old(units)[lun := old(units)[lun].(sense := SENSE_OK)])
    {
      data := SenseData(units[lun].sense);
      units := units[lun := units[lun].(sense := SENSE_OK)];
    }

    method Transfer(lun: nat, tag: bytes, dlen: nat, cdb: bytes)
      requires Wired() && lun < |units| && units[lun].numBlocks >= 1
      requires cdb != [] && cdb[0] in {OP_READ_10, OP_READ_12, OP_WRITE_10, OP_WRITE_12}
      modifies this, inEp, outEp
      ensures Wired() && State() == BulkOnly.Dispatch(old(State()), lun, tag, dlen, cdb)
    {
      hide FromBE, UrbPipe.Write, Csw;
      var u := units[lun];
      assert units[lun := u] == units;
      var (lba, count) := LbaCount(cdb);
      if cdb[0] == OP_READ_10 || cdb[0] == OP_READ_12 {
        if lba + count > u.numBlocks {
          Fail(lun, tag, dlen, SENSE_LBA_RANGE);
        } else {
          DataIn(tag, dlen, Blocks(u, lba, count));
        }
      } else if u.readOnly {
        Fail(lun, tag, dlen, SENSE_WRITE_PROTECT);
      } else if lba + count > u.numBlocks {
        Fail(lun, tag, dlen, SENSE_LBA_RANGE);
      } else {
        write := Some(Pending(lun, tag, lba, count, Span(count, u.blockSize), []));
      }
    }

    /** The commands that only report something about the unit. */
    method Report(lun: nat, tag: bytes, dlen: nat, data: bytes)
      requires Wired() && lun < |units|
      modifies this, inEp, outEp
      ensures Wired()
      ensures State() == BulkOnly.DataIn(old(State()).(units := old(units)[lun := old(units)[lun]]), tag, dlen, data)
    {
      assert units[lun := units[lun]] == units;
      DataIn(tag, dlen, data);
    }

    method Dispatch(lun: nat, tag: bytes, dlen: nat, cdb: bytes)
      requires Wired() && lun < |units| && units[lun].numBlocks >= 1
      modifies this, inEp, outEp
      ensures Wired() && State() == BulkOnly.Dispatch(old(State()), lun, tag, dlen, cdb)
    {
      hide FromBE, ToBE, UrbPipe.Write, UrbPipe.Stall, Csw, Blocks, SenseData, Slice, Span,
        BulkOnly.Fail, BulkOnly.SendCsw, BulkOnly.DataIn;
      var u := units[lun];
      if cdb == [] {
        alive := false;
        return;
      }
      var op := cdb[0];
      if op == OP_TEST_UNIT_READY {
        SendCsw(tag, 0, 0);
      } else if op == OP_INQUIRY {
        if |cdb| < 2 || (cdb[1] % 2 == 1 && |cdb| < 3) {
          alive := false;
        } else if cdb[1] % 2 == 0 {
          Report(lun, tag, dlen, u.tables.inquiry);
        } else if cdb[2] in u.tables.vpd {
          Report(lun, tag, dlen, u.tables.vpd[cdb[2]]);
        } else {
          Fail(lun, tag, dlen, SENSE_INVALID_FIELD);
        }
      } else if op == OP_READ_FORMAT_CAPACITIES {
        Report(lun, tag, dlen, u.tables.formats);
      } else if op == OP_READ_CAPACITY_10 {
        Report(lun, tag, dlen, ToBE(u.numBlocks - 1, 4) + ToBE(u.blockSize, 4));
      } else if op == OP_SERVICE_ACTION_IN_16 && |cdb| < 2 {
        alive := false;
      } else if op == OP_SERVICE_ACTION_IN_16 && cdb[1] % 32 == 0x10 {
        Report(lun, tag, dlen, ToBE(u.numBlocks - 1, 8) + ToBE(u.blockSize, 4) + seq(20, i => 0));
      } else if op == OP_READ_10 || op == OP_READ_12 || op == OP_WRITE_10 || op == OP_WRITE_12 {
        Transfer(lun, tag, dlen, cdb);
      } else if op == OP_REQUEST_SENSE {
        var data := RequestSense(lun);
        DataIn(tag, dlen, data);
      } else if op == OP_MODE_SENSE_6 || op == OP_MODE_SENSE_10 {
        if |cdb| < 3 {
          alive := false;
        } else {
          Report(lun, tag, dlen, Page(if op == OP_MODE_SENSE_10 then u.tables.mode10 else u.tables.mode6, cdb[2] % 64));
        }
      } else if op == OP_FORMAT_UNIT {
        if u.readOnly {
          Fail(lun, tag, dlen, SENSE_WRITE_PROTECT);
        } else {
          SendCsw(tag, 0, 0);
        }
      } else if op in NoOps() {
        SendCsw(tag, 0, 0);
      } else if op == OP_READ_TOC && u.cdrom {
        Report(lun, tag, dlen, u.tables.toc);
      } else if op == OP_GET_CONFIGURATION && u.cdrom {
        Report(lun, tag, dlen, u.tables.configuration);
      } else if op == OP_GET_EVENT_STATUS {
        Report(lun, tag, dlen, [0x00, 0x06, 0x80, 0x00, 0x00, 0x00, 0x00, 0x00]);
      } else {
        Fail(lun, tag, dlen, SENSE_INVALID_COMMAND);
      }
    }

    method HandleCbw(cbw: bytes)
      requires Valid() && write.None?
      modifies this, inEp, outEp
      ensures Wired() && State() == BulkOnly.HandleCbw(old(State()), cbw)
    {
      hide BulkOnly.Dispatch, BulkOnly.Fail;
      if |cbw| != 31 || cbw[..4] != CBW_SIGNATURE {
        return;
      }
      var tag, dlen, lun := cbw[4..8], FromLE(cbw[8..12]), cbw[13] % 16;
      var cdb := Slice(cbw, 15, 15 + cbw[14] % 32);
      assert ValidUnit(units[0]);
      cbwIn := cbw[12] >= 0x80;
      if lun >= |units| {
        Fail(0, tag, dlen, SENSE_LUN_NOT_SUPPORTED);
      } else {
        assert ValidUnit(units[lun]);
        Dispatch(lun, tag, dlen, cdb);
      }
    }

    method RecvWrite(data: bytes)
      requires Valid() && write.Some?
      modifies this, inEp, outEp
      ensures Wired() && State() == BulkOnly.RecvWrite(old(State()), data)
    {
      hide UrbPipe.Write, Csw, Splice;
      PendingFits(State());
      var p := write.value;
      p := p.(buf := p.buf + data);
      if |p.buf| >= p.need {
        units := units[p.lun := Store(units[p.lun], p.lba, p.buf[..p.need])];
        SendCsw(p.tag, 0, 0);
        write := None;
      } else {
        write := Some(p);
      }
    }

    /** The OUT endpoint's callback. */
    method OnOut(data: bytes)
      requires Valid()
      modifies this, inEp, outEp
      ensures Valid() && State() == BulkOnly.OnOut(old(State()), data)
    {
      hide BulkOnly.HandleCbw, BulkOnly.RecvWrite;
      OnOutKeepsValid(State(), data);
      if write.Some? {
        RecvWrite(data);
      } else {
        HandleCbw(data);
      }
    }
  }

  class MscDriver {
    const dev: Msc
    var tag: nat
    var seqnum: nat

    ghost function State(): Sys
      reads this, dev, dev.inEp, dev.outEp
    {
      Sys(dev.State(), tag, seqnum)
    }

    ghost predicate Valid()
      reads this, dev, dev.inEp, dev.outEp
    {
      dev.Valid()
    }

    constructor (dev: Msc)
      requires dev.Valid()
      ensures Valid() && this.dev == dev && State() == Sys(dev.State(), 0, 0)
    {
      this.dev, tag, seqnum := dev, 0, 0;
    }

    method BulkOut(data: bytes) returns (x: Xfer)
      requires Valid()
      modifies this, dev, dev.inEp, dev.outEp
      ensures Valid() && (State(), x) == BulkOnlyHost.BulkOut(old(State()), data)
    {
      hide BulkOnly.OnOut, ValidDev;
      seqnum := seqnum + 1;
      if !dev.alive {
        x := Closed;
      } else if dev.outEp.halted {
        x := Stalled;
      } else {
        dev.OnOut(data);
        x := if dev.alive then Sent else Closed;
      }
    }

    method BulkIn(length: nat) returns (x: Xfer)
      requires Valid() && length > 0
      modifies this, dev.inEp
      ensures Valid() && (State(), x) == BulkOnlyHost.BulkIn(old(State()), length)
    {
      hide UrbPipe.Submit;
      seqnum := seqnum + 1;
      if !dev.alive {
        return Closed;
      }
      var answer := dev.inEp.TakeOrPark(length, seqnum);
      x := if answer == [] then Hung else if answer[0].status == 0 then Got(answer[0].data) else Stalled;
    }

    method ClearIn()
      requires Valid()
      modifies this, dev.inEp
      ensures Valid() && State() == BulkOnlyHost.ClearIn(old(State()))
    {
      seqnum := seqnum + 1;
      dev.inEp.ClearHalt();
    }

    method ClearOut()
      requires Valid()
      modifies this, dev.outEp
      ensures Valid() && State() == BulkOnlyHost.ClearOut(old(State()))
    {
      seqnum := seqnum + 1;
      dev.outEp.ClearHalt();
    }

    method SendCbw(cdb: bytes, dlen: nat, directionIn: bool, lun: nat) returns (failed: Option<Outcome>)
      requires Valid()
      modifies this, dev, dev.inEp, dev.outEp
      ensures Valid() && (State(), failed) == BulkOnlyHost.SendCbw(old(State()), cdb, dlen, directionIn, lun)
    {
      hide BulkOnlyHost.BulkOut, ValidDev, Cbw;
      tag := tag + 1;
      if !CbwFits(tag, dlen, lun, cdb) {
        return Some(Overflow);
      }
      var x := BulkOut(Cbw(tag, dlen, directionIn, lun, cdb));
      failed := if x == Sent then None else Some(Broken(x));
    }

    method ReadCsw(data: bytes) returns (o: Outcome)
      requires Valid()
      modifies this, dev.inEp
      ensures Valid() && (State(), o) == BulkOnlyHost.ReadCsw(old(State()), data)
    {
      hide BulkOnlyHost.BulkIn, ValidDev;
      var x := BulkIn(13);
      if !x.Got? {
        o := Broken(x);
      } else if |x.data| == 13 && x.data[..4] == CSW_SIGNATURE {
        o := Done(data, x.data);
      } else {
        o := BadCsw;
      }
    }

    /** A device-to-host command, recovering from a stalled data phase. */
    method CommandIn(cdb: bytes, dlen: nat, lun: nat) returns (o: Outcome)
      requires Valid()
      modifies this, dev, dev.inEp, dev.outEp
      ensures Valid() && (State(), o) == BulkOnlyHost.CommandIn(old(State()), cdb, dlen, lun)
    {
      hide BulkOnlyHost.BulkIn, BulkOnlyHost.SendCbw, BulkOnlyHost.ReadCsw, ValidDev;
      var failed := SendCbw(cdb, dlen, true, lun);
      if failed.Some? {
        return failed.value;
      }
      var data := [];
      if dlen > 0 {
        var x := BulkIn(dlen);
        match x {
          case Got(d) => data := d;
          case Stalled => ClearIn();
          case _ => return Broken(x);
        }
      }
      o := ReadCsw(data);
    }

    /** A host-to-device command, recovering from a stalled data phase. */
    method CommandOut(cdb: bytes, data: bytes, lun: nat) returns (o: Outcome)
      requires Valid()
      modifies this, dev, dev.inEp, dev.outEp
      ensures Valid() && (State(), o) == BulkOnlyHost.CommandOut(old(State()), cdb, data, lun)
    {
      hide BulkOnlyHost.BulkOut, BulkOnlyHost.SendCbw, BulkOnlyHost.ReadCsw, ValidDev;
      var failed := SendCbw(cdb, |data|, false, lun);
      if failed.Some? {
        return failed.value;
      }
      if data != [] {
        var x := BulkOut(data);
        if x == Stalled {
          ClearOut();
        } else if x != Sent {
          return Broken(x);
        }
      }
      o := ReadCsw([]);
    }

    method ReadBlocks(lba: nat, count: nat, blockSize: nat, lun: nat) returns (r: BlockStack.BlockResult)
      requires Valid()
      modifies this, dev, dev.inEp, dev.outEp
      ensures Valid() && (State(), r) == BlockStack.ReadBlocks(old(State()), lba, count, blockSize, lun)
    {
      hide BulkOnlyHost.CommandIn, ValidDev;
      if !BlockStack.Cdb10Fits(lba, count) {
        return BlockStack.TooBig;
      }
      var o := CommandIn(BlockStack.Cdb10(OP_READ_10, lba, count), Span(count, blockSize), lun);
      if !o.Done? || |o.csw| != 13 {
        r := BlockStack.NoAnswer(o);
      } else if o.csw[12] != 0 {
        r := BlockStack.Failed(o.csw[12]);
      } else {
        r := BlockStack.Read(o.data);
      }
    }

    method WriteBlocks(lba: nat, data: bytes, blockSize: nat, lun: nat) returns (r: BlockStack.BlockResult)
      requires Valid() && blockSize > 0
      modifies this, dev, dev.inEp, dev.outEp
      ensures Valid() && (State(), r) == BlockStack.WriteBlocks(old(State()), lba, data, blockSize, lun)
    {
      hide BulkOnlyHost.CommandOut, ValidDev;
      CountBlocksIsQuotient(|data|, blockSize);
      var count := |data| / blockSize;
      if !BlockStack.Cdb10Fits(lba, count) {
        return BlockStack.TooBig;
      }
      var o := CommandOut(BlockStack.Cdb10(OP_WRITE_10, lba, count), data, lun);
      if !o.Done? || |o.csw| != 13 {
        r := BlockStack.NoAnswer(o);
      } else if o.csw[12] != 0 {
        r := BlockStack.Failed(o.csw[12]);
      } else {
        r := BlockStack.Wrote(count);
      }
    }
  }
}
