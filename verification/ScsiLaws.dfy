/** What a host can rely on from mass storage beyond reads and writes (usbip/classes/device/msc.py, MSC._dispatch;
    usbip/classes/host/msc.py): the wrappers byte by byte, which opcodes do what, the capacity, and how a failure is
    told. Everything is stated at byte offsets and through the whole stack. */
module ScsiLaws {
  import opened Bytes
  import opened UrbPipe
  import opened BulkOnly
  import opened BulkOnlyHost
  import BlockStack

  function LE32(b: bytes, at: nat): nat
    requires at + 4 <= |b|
  {
    At(b, at) + 256 * At(b, at + 1) + 65536 * At(b, at + 2) + 16777216 * At(b, at + 3)
  }

  function BE32(b: bytes, at: nat): nat
    requires at + 4 <= |b|
  {
    16777216 * At(b, at) + 65536 * At(b, at + 1) + 256 * At(b, at + 2) + At(b, at + 3)
  }

  lemma ReadsLE(v: nat, b: bytes, at: nat)
    requires v < 0x1_0000_0000 && at + 4 <= |b| && b[at..at + 4] == ToLE(v, 4)
    ensures LE32(b, at) == v
  {
    hide FromLE, ToLE;
    assert Pow256(4) == 0x1_0000_0000;
    LERoundTrip(v, 4);
    FromLE4(b[at..at + 4]);
  }

  lemma ReadsBE(v: nat, b: bytes, at: nat)
    requires v < 0x1_0000_0000 && at + 4 <= |b| && b[at..at + 4] == ToBE(v, 4)
    ensures BE32(b, at) == v
  {
    hide FromBE, ToBE;
    assert Pow256(4) == 0x1_0000_0000;
    BERoundTrip(v, 4);
    FromBE4(b[at..at + 4]);
  }

  // ---- the wrappers -----------------------------------------------------------------------

  /** A command wrapper: "USBC", tag, length, direction, unit, block length, block. */
  lemma CbwLayout(tag: nat, dlen: nat, directionIn: bool, lun: nat, cdb: bytes)
    requires CbwFits(tag, dlen, lun, cdb) && |cdb| <= 16
    ensures var b := Cbw(tag, dlen, directionIn, lun, cdb);
            && |b| == 31 && b[0] == 0x55 && b[1] == 0x53 && b[2] == 0x42 && b[3] == 0x43
            && LE32(b, 4) == tag && LE32(b, 8) == dlen
            && b[12] == (if directionIn then 0x80 else 0) && b[13] == lun && b[14] == |cdb|
            && forall i :: 15 <= i < 31 ==> b[i] == if i - 15 < |cdb| then cdb[i - 15] else 0
  {
    hide ToLE;
    var b := Cbw(tag, dlen, directionIn, lun, cdb);
    var head := CBW_SIGNATURE + ToLE(tag, 4) + ToLE(dlen, 4);
    var flags := [if directionIn then 0x80 else 0, lun, |cdb|];
    assert Pow256(4) == 0x1_0000_0000;
    assert |head| == 12 && b == head + flags + Pad16(cdb);
    assert head[4..8] == ToLE(tag, 4) && head[8..12] == ToLE(dlen, 4);
    assert b[4..8] == head[4..8] && b[8..12] == head[8..12];
    ReadsLE(tag, b, 4);
    ReadsLE(dlen, b, 8);
    forall i | 15 <= i < 31
      ensures b[i] == if i - 15 < |cdb| then cdb[i - 15] else 0
    {
      assert b[i] == Pad16(cdb)[i - 15];
    }
  }

  /** A status wrapper: "USBS", the command's tag, residue, status. */
  lemma CswLayout(tag: nat, residue: nat, status: byte)
    requires tag < 0x1_0000_0000 && residue < 0x1_0000_0000
    ensures var b := Csw(ToLE(tag, 4), residue, status);
            && |b| == 13 && b[0] == 0x55 && b[1] == 0x53 && b[2] == 0x42 && b[3] == 0x53
            && LE32(b, 4) == tag && LE32(b, 8) == residue && b[12] == status
  {
    hide ToLE, LE32;
    var b := Csw(ToLE(tag, 4), residue, status);
    assert b[4..8] == ToLE(tag, 4) && b[8..12] == ToLE(residue, 4);
    ReadsLE(tag, b, 4);
    ReadsLE(residue, b, 8);
  }

  // ---- which opcodes do what ----------------------------------------------------------------

  /** Every opcode this device knows. */
  const KNOWN: set<nat> := {0x00, 0x01, 0x03, 0x04, 0x12, 0x1A, 0x1B, 0x1E, 0x23, 0x25, 0x28, 0x2A, 0x2B, 0x2F, 0x35,
                            0x43, 0x46, 0x4A, 0x5A, 0x9E, 0xA8, 0xAA}

  /** Opcodes that only pass: TEST UNIT READY and the ones with nothing to do. */
  const PASSING: set<nat> := {0x00, 0x01, 0x1B, 0x1E, 0x2B, 0x2F, 0x35}

  lemma OpcodeTable(u: Unit, cdb: bytes)
    requires u.numBlocks >= 1 && |cdb| >= 3
    ensures var a, op := Decide(u, cdb), cdb[0];
            && (op in PASSING ==> a == Pass)
            && (op !in KNOWN ==> a == Refuse(Sense(5, 0x20, 0)))
            && (op == 0x9E && cdb[1] % 32 != 0x10 ==> a == Refuse(Sense(5, 0x20, 0)))
            && ((op == 0x43 || op == 0x46) && !u.cdrom ==> a == Refuse(Sense(5, 0x20, 0)))
            && (op == 0x04 ==> a == if u.readOnly then Refuse(Sense(7, 0x27, 0)) else Pass)
            && ((op == 0x2A || op == 0xAA) && u.readOnly ==> a == Refuse(Sense(7, 0x27, 0)))
            && (op == 0x12 && cdb[1] % 2 == 1 && cdb[2] !in u.tables.vpd ==> a == Refuse(Sense(5, 0x24, 0)))
            && (op == 0x12 && cdb[1] % 2 == 1 && cdb[2] in u.tables.vpd ==> a == Send(u.tables.vpd[cdb[2]]))
            && (op == 0x12 && cdb[1] % 2 == 0 ==> a == Send(u.tables.inquiry))
            && (op == 0x4A ==> a == Send([0, 6, 0x80, 0, 0, 0, 0, 0]))
            && (op == 0x23 ==> a == Send(u.tables.formats))
            && (op == 0x43 && u.cdrom ==> a == Send(u.tables.toc))
            && (op == 0x46 && u.cdrom ==> a == Send(u.tables.configuration))
            && (op == 0x1A && cdb[2] % 64 in u.tables.mode6 ==> a == Send(u.tables.mode6[cdb[2] % 64]))
            && (op == 0x5A && cdb[2] % 64 in u.tables.mode10 ==> a == Send(u.tables.mode10[cdb[2] % 64]))
  {
    hide LbaCount, Blocks, SenseData, ToBE;
  }

  // ---- one command through the stack ----------------------------------------------------------

  /** A command that sends what the unit decided to send is answered with it, cut to the room asked for, status 0,
      and a residue that makes up the difference. */
  lemma SentIsReceived(s: Sys, cdb: bytes, room: nat, lun: nat, data: bytes)
    requires Quiescent(s) && AllValid(s.dev.units) && lun < |s.dev.units| && CbwFits(s.tag + 1, room, lun, cdb)
    requires 0 < |cdb| <= 16 && Decide(s.dev.units[lun], cdb) == Send(data)
    ensures var (s', o) := CommandIn(s, cdb, room, lun);
            && Quiescent(s') && s'.tag == s.tag + 1 && o.Done?
            && o.data == (if |data| <= room then data else data[..room])
            && |o.csw| == 13 && o.csw[12] == 0 && LE32(o.csw, 8) + |o.data| == room
            && LE32(o.csw, 4) == s.tag + 1
            && s'.dev.units == s.dev.units[lun := AfterDecide(s.dev.units[lun], cdb)]
  {
    hide CommandIn, Decide, Csw, LE32, AllValid, AfterDecide, Pow256;
    var e := Abstract(s.dev.units, lun, cdb, room, []);
    CommandInRefines(s, cdb, room, lun);
    assert |e.data| + e.residue == room;
    assert Pow256(4) == 0x1_0000_0000 by {
      WordBound();
    }
    CswLayout(s.tag + 1, e.residue, 0);
  }

  lemma WordBound()
    ensures Pow256(4) == 0x1_0000_0000
  {
  }

  /** A refused one: no data, status 1, all of the room as residue, and the reason kept on the unit. */
  lemma RefusalIsReceived(s: Sys, cdb: bytes, room: nat, lun: nat, sense: Sense)
    requires Quiescent(s) && AllValid(s.dev.units) && lun < |s.dev.units| && CbwFits(s.tag + 1, room, lun, cdb)
    requires 0 < |cdb| <= 16 && Decide(s.dev.units[lun], cdb) == Refuse(sense)
    ensures var (s', o) := CommandIn(s, cdb, room, lun);
            && Quiescent(s') && s'.tag == s.tag + 1 && o.Done? && o.data == []
            && |o.csw| == 13 && o.csw[12] == 1 && LE32(o.csw, 8) == room && LE32(o.csw, 4) == s.tag + 1
            && s'.dev.units == s.dev.units[lun := s.dev.units[lun].(sense := sense)]
  {
    hide CommandIn, Decide, Csw, LE32, AllValid, Pow256;
    CommandInRefines(s, cdb, room, lun);
    assert Pow256(4) == 0x1_0000_0000 by {
      WordBound();
    }
    CswLayout(s.tag + 1, room, 1);
  }

  /** A command for a unit the device does not have: the same, the reason kept on unit 0. */
  lemma MissingUnit(s: Sys, cdb: bytes, room: nat, lun: nat)
    requires Quiescent(s) && AllValid(s.dev.units) && |s.dev.units| <= lun < 16 && CbwFits(s.tag + 1, room, lun, cdb)
    requires |cdb| <= 16
    ensures var (s', o) := CommandIn(s, cdb, room, lun);
            && Quiescent(s') && o.Done? && o.data == [] && |o.csw| == 13 && o.csw[12] == 1
            && s'.dev.units == s.dev.units[0 := s.dev.units[0].(sense := Sense(5, 0x25, 0))]
  {
    hide CommandIn, Csw, LE32, AllValid, Pow256, Decide;
    CommandInRefines(s, cdb, room, lun);
    CswShape(ToLE(s.tag + 1, 4), room, 1);
  }

  /** Whatever does not fit the wrapper is never sent: the tag is counted up and that is all. */
  lemma Unsendable(s: Sys, cdb: bytes, room: nat, data: bytes, lun: nat)
    requires ValidDev(s.dev)
    ensures s.tag + 1 >= 0x1_0000_0000 || room >= 0x1_0000_0000 || lun >= 256 || |cdb| >= 256 ==>
              CommandIn(s, cdb, room, lun) == (s.(tag := s.tag + 1), Overflow)
    ensures s.tag + 1 >= 0x1_0000_0000 || |data| >= 0x1_0000_0000 || lun >= 256 || |cdb| >= 256 ==>
              CommandOut(s, cdb, data, lun) == (s.(tag := s.tag + 1), Overflow)
  {
    hide Pow256, Cbw, FinishIn, FinishOut, BulkOut;
    WordBound();
  }

  /** A wrapper the device stalls ends the command there, with no data phase and no status read. */
  lemma WrapperStalls(s: Sys, cdb: bytes, room: nat, data: bytes, lun: nat)
    requires ValidDev(s.dev) && s.dev.alive && s.dev.outp.halted
    ensures CbwFits(s.tag + 1, room, lun, cdb) ==>
              CommandIn(s, cdb, room, lun) == (s.(tag := s.tag + 1, seqnum := s.seqnum + 1), Broken(Stalled))
    ensures CbwFits(s.tag + 1, |data|, lun, cdb) ==>
              CommandOut(s, cdb, data, lun) == (s.(tag := s.tag + 1, seqnum := s.seqnum + 1), Broken(Stalled))
  {
    hide Cbw, FinishIn, FinishOut, OnOut, CbwFits;
  }

  /** Once the device's handler has raised, the connection is closed to every command and the device as it was. */
  lemma ClosedForGood(s: Sys, cdb: bytes, room: nat, data: bytes, lun: nat)
    requires ValidDev(s.dev) && !s.dev.alive
    ensures CbwFits(s.tag + 1, room, lun, cdb) ==>
              CommandIn(s, cdb, room, lun) == (s.(tag := s.tag + 1, seqnum := s.seqnum + 1), Broken(Closed))
    ensures CbwFits(s.tag + 1, |data|, lun, cdb) ==>
              CommandOut(s, cdb, data, lun) == (s.(tag := s.tag + 1, seqnum := s.seqnum + 1), Broken(Closed))
  {
    hide Cbw, FinishIn, FinishOut, OnOut, CbwFits;
  }

  /** A transfer, whatever becomes of it, and a cleared halt each take one URB number. */
  lemma OneUrbEach(s: Sys, data: bytes, length: nat)
    requires ValidDev(s.dev)
    ensures BulkOut(s, data).0.seqnum == s.seqnum + 1
    ensures length > 0 ==> BulkIn(s, length).0.seqnum == s.seqnum + 1
    ensures ClearIn(s).seqnum == s.seqnum + 1 && ClearOut(s).seqnum == s.seqnum + 1
  {
    hide OnOut, Submit;
  }

  /** No command is taken for done without thirteen bytes of status that start with "USBS". */
  lemma DoneIsSigned(s: Sys, cdb: bytes, room: nat, data: bytes, lun: nat)
    requires ValidDev(s.dev)
    ensures var o := CommandIn(s, cdb, room, lun).1;
            o.Done? ==> |o.csw| == 13 && o.csw[..4] == [0x55, 0x53, 0x42, 0x53]
    ensures var o := CommandOut(s, cdb, data, lun).1;
            o.Done? ==> |o.csw| == 13 && o.csw[..4] == [0x55, 0x53, 0x42, 0x53]
  {
    hide BulkIn, BulkOut, SendCbw, ValidDev;
    SendFailureIsNotDone(s, cdb, room, true, lun);
    SendFailureIsNotDone(s, cdb, |data|, false, lun);
  }

  lemma SendFailureIsNotDone(s: Sys, cdb: bytes, room: nat, directionIn: bool, lun: nat)
    requires ValidDev(s.dev)
    ensures SendCbw(s, cdb, room, directionIn, lun).1.Some? ==> !SendCbw(s, cdb, room, directionIn, lun).1.value.Done?
  {
    hide BulkOut, Cbw;
  }

  // ---- the capacity ---------------------------------------------------------------------------

  /** MSCDriver.read_capacity's command. */
  const CAPACITY: bytes := [0x25, 0, 0, 0, 0, 0, 0, 0, 0, 0]

  lemma CapacityDecided(u: Unit)
    requires ValidUnit(u)
    ensures exists data ::
              && Decide(u, CAPACITY) == Send(data) && AfterDecide(u, CAPACITY) == u
              && |data| == 8 && BE32(data, 0) == u.numBlocks - 1 && BE32(data, 4) == u.blockSize
  {
    hide ToBE, Span;
    var data := ToBE(u.numBlocks - 1, 4) + ToBE(u.blockSize, 4);
    assert Pow256(4) == 0x1_0000_0000;
    assert data[0..4] == ToBE(u.numBlocks - 1, 4) && data[4..8] == ToBE(u.blockSize, 4);
    ReadsBE(u.numBlocks - 1, data, 0);
    ReadsBE(u.blockSize, data, 4);
  }

  /** The sixteen-byte form says the same in eight bytes and four, padded to thirty-two. */
  lemma LongCapacityDecided(u: Unit, cdb: bytes)
    requires ValidUnit(u) && |cdb| >= 2 && cdb[0] == 0x9E && cdb[1] % 32 == 0x10
    ensures exists data ::
              && Decide(u, cdb) == Send(data) && |data| == 32
              && FromBE(data[0..8]) == u.numBlocks - 1 && BE32(data, 8) == u.blockSize
  {
    hide ToBE, Span, FromBE, LbaCount;
    var head := ToBE(u.numBlocks - 1, 8);
    var data := head + ToBE(u.blockSize, 4) + seq(20, i => 0);
    assert Pow256(4) == 0x1_0000_0000 && Pow256(8) == 0x1_0000_0000_0000_0000;
    BERoundTrip(u.numBlocks - 1, 8);
    assert data[0..8] == head && data[8..12] == ToBE(u.blockSize, 4);
    ReadsBE(u.blockSize, data, 8);
    assert Decide(u, cdb) == Send(data);
  }

  /** read_capacity gives a unit's number of blocks and block size, whatever they are. */
  lemma CapacityIsRead(s: Sys, lun: nat)
    requires Quiescent(s) && AllValid(s.dev.units) && lun < |s.dev.units| && s.tag + 1 < Pow256(4)
    ensures var (s', o) := CommandIn(s, CAPACITY, 8, lun);
            var u := s.dev.units[lun];
            && Quiescent(s') && s'.dev.units == s.dev.units && o.Done? && |o.data| == 8
            && BE32(o.data, 0) + 1 == u.numBlocks && BE32(o.data, 4) == u.blockSize
  {
    hide CommandIn, Decide, BE32, LE32, Quiescent, AfterDecide, Pow256;
    CapacityDecided(s.dev.units[lun]);
    var data :| && Decide(s.dev.units[lun], CAPACITY) == Send(data)
                && AfterDecide(s.dev.units[lun], CAPACITY) == s.dev.units[lun]
                && |data| == 8 && BE32(data, 0) == s.dev.units[lun].numBlocks - 1
                && BE32(data, 4) == s.dev.units[lun].blockSize;
    WordBound();
    AtMostSixteen(s);
    SentIsReceived(s, CAPACITY, 8, lun, data);
    assert s.dev.units[lun := s.dev.units[lun]] == s.dev.units;
  }

  lemma AtMostSixteen(s: Sys)
    requires Quiescent(s)
    ensures ValidDev(s.dev) && 1 <= |s.dev.units| <= 16
  {
  }

  // ---- why a command failed ---------------------------------------------------------------------

  const REQUEST: bytes := [0x03, 0, 0, 0, 18, 0]

  /** Fixed-format sense data. */
  predicate SenseBytes(b: bytes, sense: Sense) {
    && |b| == 18 && b[0] == 0x70 && b[2] == sense.key && b[7] == 10 && b[12] == sense.asc && b[13] == sense.ascq
    && forall i :: 0 <= i < 18 && i !in {0, 2, 7, 12, 13} ==> b[i] == 0
  }

  lemma SenseDecided(u: Unit)
    requires u.numBlocks >= 1
    ensures Decide(u, REQUEST) == Send(SenseData(u.sense)) && SenseBytes(SenseData(u.sense), u.sense)
    ensures AfterDecide(u, REQUEST) == u.(sense := Sense(0, 0, 0))
  {
  }

  /** REQUEST SENSE reports the unit's sense data and clears it. */
  lemma SenseIsReported(s: Sys, lun: nat)
    requires Quiescent(s) && AllValid(s.dev.units) && lun < |s.dev.units| && s.tag + 1 < Pow256(4)
    ensures var (s', o) := CommandIn(s, REQUEST, 18, lun);
            && Quiescent(s') && s'.tag == s.tag + 1 && o.Done? && SenseBytes(o.data, s.dev.units[lun].sense)
            && s'.dev.units == s.dev.units[lun := s.dev.units[lun].(sense := Sense(0, 0, 0))]
  {
    hide CommandIn, Decide, LE32, Quiescent, AfterDecide, SenseBytes, Pow256;
    SenseDecided(s.dev.units[lun]);
    WordBound();
    AtMostSixteen(s);
    SenseLength(s.dev.units[lun].sense);
    SentIsReceived(s, REQUEST, 18, lun, SenseData(s.dev.units[lun].sense));
  }

  lemma SenseLength(sense: Sense)
    ensures |SenseData(sense)| == 18
  {
  }

  /** After any refused command the host's REQUEST SENSE tells why, and a second one that nothing is wrong. */
  lemma FailureIsExplained(s: Sys, cdb: bytes, room: nat, lun: nat, sense: Sense)
    requires Quiescent(s) && AllValid(s.dev.units) && lun < |s.dev.units| && CbwFits(s.tag + 1, room, lun, cdb)
    requires 0 < |cdb| <= 16 && Decide(s.dev.units[lun], cdb) == Refuse(sense) && s.tag + 3 < Pow256(4)
    ensures var s1 := CommandIn(s, cdb, room, lun).0;
            Quiescent(s1)
            && var (s2, told) := CommandIn(s1, REQUEST, 18, lun);
               Quiescent(s2) && told.Done? && SenseBytes(told.data, sense)
               && var again := CommandIn(s2, REQUEST, 18, lun).1;
                  again.Done? && SenseBytes(again.data, Sense(0, 0, 0))
  {
    hide CommandIn, Decide, LE32, SenseBytes, Quiescent, Pow256, AllValid;
    AtMostSixteen(s);
    RefusalIsReceived(s, cdb, room, lun, sense);
    var s1 := CommandIn(s, cdb, room, lun).0;
    AtMostSixteen(s1);
    BlockStack.ValidUnitsStay(s1);
    SenseIsReported(s1, lun);
    var s2 := CommandIn(s1, REQUEST, 18, lun).0;
    AtMostSixteen(s2);
    BlockStack.ValidUnitsStay(s2);
    SenseIsReported(s2, lun);
  }

  /** So a read past the end is explained as an address out of range, a write to a protected unit as protected, and an
      opcode the device does not know as an invalid one. */
  lemma Reasons(u: Unit, cdb: bytes)
    requires u.numBlocks >= 1 && |cdb| >= 10
    ensures cdb[0] in {0x28, 0xA8} && LbaCount(cdb).0 + LbaCount(cdb).1 > u.numBlocks ==>
              Decide(u, cdb) == Refuse(Sense(5, 0x21, 0))
    ensures cdb[0] in {0x2A, 0xAA} && !u.readOnly && LbaCount(cdb).0 + LbaCount(cdb).1 > u.numBlocks ==>
              Decide(u, cdb) == Refuse(Sense(5, 0x21, 0))
    ensures cdb[0] in {0x2A, 0xAA} && u.readOnly ==> Decide(u, cdb) == Refuse(Sense(7, 0x27, 0))
    ensures cdb[0] !in KNOWN ==> Decide(u, cdb) == Refuse(Sense(5, 0x20, 0))
  {
    hide LbaCount, Blocks, Page, SenseData, ToBE;
  }
}
