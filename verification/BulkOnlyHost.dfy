/** The host driver over the device (usbip/classes/host/msc.py, class MSCDriver): one
    synchronous command at a time through CBW, data phase, halt recovery and CSW.
    `Abstract` says what a command does to plain arrays of blocks; the theorems show
    exactly which commands the stack answers, and that those behave like `Abstract`. */
module BulkOnlyHost {
  import opened Bytes
  import opened UrbPipe
  import opened BulkOnly

  /** The device, the host's tag counter (MSCDriver._tag) and URB counter (Connection._seq). */
  datatype Sys = Sys(dev: Dev, tag: nat, seqnum: nat)

  datatype Xfer =
    | Got(data: bytes)
    | Sent
    | Stalled
    | Hung       // the read is parked and the host waits for ever
    | Closed     // the device's handler raised and the connection is gone

  datatype Outcome =
    | Done(data: bytes, csw: bytes)
    | BadCsw
    | Overflow              // a field does not fit its CBW slot
    | Broken(xfer: Xfer)    // stalled outside a data phase, hung or closed

  ghost predicate AllValid(units: seq<Unit>) {
    forall i :: 0 <= i < |units| ==> ValidUnit(units[i]) && units[i].numBlocks >= 1
  }

  // ---- transfers -----------------------------------------------------------------

  function BulkOut(s: Sys, data: bytes): (r: (Sys, Xfer))
    requires ValidDev(s.dev)
    ensures ValidDev(r.0.dev)
  {
    OnOutKeepsValid(s.dev, data);
    var s1 := s.(seqnum := s.seqnum + 1);
    if !s.dev.alive then (s1, Closed)
    else if s.dev.outp.halted then (s1, Stalled)
    else
      var dev := OnOut(s.dev, data);
      (s1.(dev := dev), if dev.alive then Sent else Closed)
  }

  function BulkIn(s: Sys, length: nat): (r: (Sys, Xfer))
    requires length > 0
    ensures ValidDev(s.dev) ==> ValidDev(r.0.dev)
  {
    var s1 := s.(seqnum := s.seqnum + 1);
    if !s.dev.alive then (s1, Closed)
    else
      var (inp, rs) := Submit(s.dev.inp, length, s1.seqnum);
      (s1.(dev := s.dev.(inp := inp)),
       if rs == [] then Hung else if rs[0].status == 0 then Got(rs[0].data) else Stalled)
  }

  function ClearIn(s: Sys): Sys {
    s.(seqnum := s.seqnum + 1, dev := s.dev.(inp := s.dev.inp.(halted := false)))
  }

  function ClearOut(s: Sys): Sys {
    s.(seqnum := s.seqnum + 1, dev := s.dev.(outp := s.dev.outp.(halted := false)))
  }

  // ---- commands --------------------------------------------------------------------

  function Pad16(cdb: bytes): bytes {
    if |cdb| >= 16 then cdb else cdb + seq(16 - |cdb|, i => 0)
  }

  function Cbw(tag: nat, dlen: nat, directionIn: bool, lun: nat, cdb: bytes): bytes
    requires lun < 256 && |cdb| < 256
  {
    CBW_SIGNATURE + ToLE(tag, 4) + ToLE(dlen, 4)
    + [if directionIn then 0x80 else 0, lun, |cdb|] + Pad16(cdb)
  }

  predicate CbwFits(tag: nat, dlen: nat, lun: nat, cdb: bytes) {
    tag < Pow256(4) && dlen < Pow256(4) && lun < 256 && |cdb| < 256
  }

  function ReadCsw(s: Sys, data: bytes): (r: (Sys, Outcome))
    requires ValidDev(s.dev)
    ensures ValidDev(r.0.dev)
  {
    var (s1, x) := BulkIn(s, 13);
    match x
    case Got(csw) =>
      (s1, if |csw| == 13 && csw[..4] == CSW_SIGNATURE then Done(data, csw) else BadCsw)
    case _ => (s1, Broken(x))
  }

  /** What follows the CBW: the data phase, recovered if it stalls, then the CSW. */
  function FinishIn(s1: Sys, dlen: nat): (r: (Sys, Outcome))
    requires ValidDev(s1.dev)
    ensures ValidDev(r.0.dev)
  {
    if dlen == 0 then ReadCsw(s1, [])
    else
      var (s2, x2) := BulkIn(s1, dlen);
      match x2
      case Got(data) => ReadCsw(s2, data)
      case Stalled => ReadCsw(ClearIn(s2), [])
      case _ => (s2, Broken(x2))
  }

  function FinishOut(s1: Sys, data: bytes): (r: (Sys, Outcome))
    requires ValidDev(s1.dev)
    ensures ValidDev(r.0.dev)
  {
    if data == [] then ReadCsw(s1, [])
    else
      var (s2, x2) := BulkOut(s1, data);
      match x2
      case Sent => ReadCsw(s2, [])
      case Stalled => ReadCsw(ClearOut(s2), [])
      case _ => (s2, Broken(x2))
  }

  /** MSCDriver._cbw: count the tag up and send the wrapper. */
  function SendCbw(s: Sys, cdb: bytes, dlen: nat, directionIn: bool, lun: nat)
    : (r: (Sys, Option<Outcome>))
    requires ValidDev(s.dev)
    ensures ValidDev(r.0.dev)
  {
    var s0 := s.(tag := s.tag + 1);
    if !CbwFits(s0.tag, dlen, lun, cdb) then (s0, Some(Overflow))
    else
      var (s1, x1) := BulkOut(s0, Cbw(s0.tag, dlen, directionIn, lun, cdb));
      (s1, if x1 == Sent then None else Some(Broken(x1)))
  }

  function CommandIn(s: Sys, cdb: bytes, dlen: nat, lun: nat): (r: (Sys, Outcome))
    requires ValidDev(s.dev)
    ensures ValidDev(r.0.dev)
  {
    var (s1, failed) := SendCbw(s, cdb, dlen, true, lun);
    if failed.Some? then (s1, failed.value) else FinishIn(s1, dlen)
  }

  function CommandOut(s: Sys, cdb: bytes, data: bytes, lun: nat): (r: (Sys, Outcome))
    requires ValidDev(s.dev)
    ensures ValidDev(r.0.dev)
  {
    var (s1, failed) := SendCbw(s, cdb, |data|, false, lun);
    if failed.Some? then (s1, failed.value) else FinishOut(s1, data)
  }

  // ---- the abstract machine ----------------------------------------------------------

  datatype Effect = Effect(units: seq<Unit>, data: bytes, residue: nat, status: byte)

  /** What an action means on plain units; no pipes, no halts, no CSW. `room` is the data
      length the command declares and `payload` the data it carries. */
  function Enact(units: seq<Unit>, k: nat, cdb: bytes, room: nat, payload: bytes, action: Action): Effect
    requires k < |units| && ValidUnit(units[k])
    requires action.Await? ==> cdb != [] && LbaCount(cdb).0 + LbaCount(cdb).1 <= units[k].numBlocks
  {
    match action
    case Pass => Effect(units, [], 0, 0)
    case Send(data) =>
      var sent := Sending(data, room);
      Effect(units[k := AfterDecide(units[k], cdb)], sent, room - |sent|, 0)
    case Refuse(sense) => Effect(units[k := units[k].(sense := sense)], [], room, 1)
    case Await =>
      var (lba, count) := LbaCount(cdb);
      InRange(units[k], lba, count);
      var need := Span(count, units[k].blockSize);
      if |payload| < need then Effect(units, [], room, 2)
      else Effect(units[k := Store(units[k], lba, payload[..need])], [], 0, 0)
    case Crash => Effect(units, [], room, 2)
  }

  /** What a command means: a missing unit is unit 0's sense data, else the decided action. */
  function Abstract(units: seq<Unit>, lun: nat, cdb: bytes, room: nat, payload: bytes): Effect
    requires units != [] && AllValid(units)
  {
    var k := lun % 16;
    if k >= |units| then
      Effect(units[0 := units[0].(sense := SENSE_LUN_NOT_SUPPORTED)], [], room, 1)
    else
      AwaitMeansWritable(units[k], cdb);
      Enact(units, k, cdb, room, payload, Decide(units[k], cdb))
  }

  lemma InRange(u: Unit, lba: nat, count: nat)
    requires ValidUnit(u) && lba + count <= u.numBlocks
    ensures Span(lba, u.blockSize) + Span(count, u.blockSize) == Span(lba + count, u.blockSize) <= |u.image|
  {
    SpanAdd(lba, count, u.blockSize);
    SpanMonotone(lba + count, u.numBlocks, u.blockSize);
  }

  /** Which device-to-host commands the stack can answer: not a host-to-device opcode, no
      declared data for a no-data opcode, and a CDB the device can take. */
  predicate FitIn(units: seq<Unit>, lun: nat, cdb: bytes, dlen: nat)
    requires forall i :: 0 <= i < |units| ==> units[i].numBlocks >= 1
  {
    && |cdb| <= 16
    && (lun % 16 < |units| ==>
          var a := Decide(units[lun % 16], cdb);
          a.Send? || a.Refuse? || (a.Pass? && dlen == 0))
  }

  /** What is asked of an action for command_out to be answered. */
  predicate OutAnswered(u: Unit, cdb: bytes, data: bytes, action: Action) {
    || action.Refuse? || action.Pass?
    || (action.Send? && (data == [] || action.data == []))
    || (action.Await? && cdb != [] && data != [] && Span(LbaCount(cdb).1, u.blockSize) <= |data|)
  }

  /** Which host-to-device commands it can answer: a write must carry data, and all of it;
      an opcode with data to return must not declare any room for outgoing data. */
  predicate FitOut(units: seq<Unit>, lun: nat, cdb: bytes, data: bytes)
    requires forall i :: 0 <= i < |units| ==> units[i].numBlocks >= 1
  {
    && |cdb| <= 16
    && (lun % 16 < |units| ==>
          OutAnswered(units[lun % 16], cdb, data, Decide(units[lun % 16], cdb)))
  }

  /** The data would be taken for a new CBW: it looks like one and no write awaits it. */
  predicate Misread(units: seq<Unit>, lun: nat, cdb: bytes, data: bytes)
    requires forall i :: 0 <= i < |units| ==> units[i].numBlocks >= 1
  {
    IsCbw(data)
    && (|cdb| > 16
        || (lun % 16 < |units| && TakesNoData(Decide(units[lun % 16], cdb))))
  }

  predicate TakesNoData(action: Action) {
    action.Pass? || (action.Send? && action.data != [])
  }

  /** Both pipes empty and un-halted, no write pending: ready for the next command. */
  ghost predicate Quiescent(s: Sys) {
    && ValidDev(s.dev) && s.dev.alive && s.dev.pend.None?
    && s.dev.inp == EMPTY && s.dev.outp == EMPTY
  }

  // ---- what travels ------------------------------------------------------------------

  lemma CbwParses(tag: nat, dlen: nat, directionIn: bool, lun: nat, cdb: bytes)
    requires CbwFits(tag, dlen, lun, cdb)
    ensures Wraps(Cbw(tag, dlen, directionIn, lun, cdb), ToLE(tag, 4), dlen, directionIn, lun, cdb)
  {
    hide ToLE, FromLE, Slice;
    var cbw := Cbw(tag, dlen, directionIn, lun, cdb);
    var head := CBW_SIGNATURE + ToLE(tag, 4) + ToLE(dlen, 4);
    var flags := [if directionIn then 0x80 else 0, lun, |cdb|];
    assert |head| == 12 && cbw == head + flags + Pad16(cdb);
    assert head[..4] == CBW_SIGNATURE && head[4..8] == ToLE(tag, 4) && head[8..12] == ToLE(dlen, 4);
    assert cbw[..4] == head[..4] && cbw[4..8] == head[4..8] && cbw[8..12] == head[8..12];
    assert cbw[12] == flags[0] && cbw[13] == flags[1] && cbw[14] == flags[2];
    LERoundTrip(dlen, 4);
    if |cdb| <= 16 {
      CdbInCbw(head + flags, cdb);
    }
  }

  lemma CdbInCbw(head: bytes, cdb: bytes)
    requires |head| == 15 && |cdb| <= 16
    ensures Slice(head + Pad16(cdb), 15, 15 + |cdb|) == cdb
  {
    assert (head + Pad16(cdb))[15..15 + |cdb|] == Pad16(cdb)[..|cdb|];
  }

  lemma WriteUnparked(p: Pipe, blob: bytes)
    requires p.parked == []
    ensures Write(p, blob).0 == p.(q := p.q + [blob])
  {
  }

  lemma CswShape(tag: bytes, residue: nat, status: byte)
    requires |tag| == 4
    ensures var csw := Csw(tag, residue, status);
      |csw| == 13 && csw[..4] == CSW_SIGNATURE && csw[4..8] == tag && csw[12] == status
          && csw[8..12] == ToLE(residue, 4)
  {
  }

  /** With only a CSW queued, reading it completes the command and empties the pipe. */
  lemma CswIsRead(s: Sys, data: bytes, csw: bytes)
    requires ValidDev(s.dev)
    requires s.dev.alive && s.dev.inp == Pipe([csw], [], false)
    requires |csw| == 13 && csw[..4] == CSW_SIGNATURE
    ensures ReadCsw(s, data) == (s.(seqnum := s.seqnum + 1, dev := s.dev.(inp := EMPTY)), Done(data, csw))
  {
    assert [csw][1..] == [] && [] + [csw][1..] == [];
  }

  // ---- after the CBW ------------------------------------------------------------------

  /** Replies waiting on the IN pipe, in order. */
  function Queued(q: seq<bytes>, halted: bool): Pipe { Pipe(q, [], halted) }

  lemma EmptyPlus(blob: bytes)
    ensures EMPTY.q + [blob] == [blob]
  {
  }

  lemma RefusedCbw(d: Dev, lun: nat, tag: bytes, dlen: nat, sense: Sense)
    requires d.inp == EMPTY && d.outp == EMPTY && lun < |d.units|
    ensures Fail(d, lun, tag, dlen, sense)
         == d.(units := d.units[lun := d.units[lun].(sense := sense)],
               inp := Queued([Csw(tag, dlen, 1)], dlen > 0 && d.cbwIn),
               outp := Queued([], dlen > 0 && !d.cbwIn))
  {
    EmptyPlus(Csw(tag, dlen, 1));
    var p := StallDataPhase(d, dlen).inp;
    WriteUnparked(p, Csw(tag, dlen, 1));
  }

  lemma PassedCbw(d: Dev, tag: bytes)
    requires d.inp == EMPTY
    ensures SendCsw(d, tag, 0, 0) == d.(inp := Queued([Csw(tag, 0, 0)], false))
  {
    EmptyPlus(Csw(tag, 0, 0));
    WriteUnparked(d.inp, Csw(tag, 0, 0));
  }

  function Sending(data: bytes, dlen: nat): (r: bytes)
    ensures |r| <= dlen && r == Slice(data, 0, dlen)
  {
    if |data| <= dlen then data else data[..dlen]
  }

  lemma DataInCbw(d: Dev, tag: bytes, dlen: nat, data: bytes)
    requires d.inp == EMPTY && d.outp == EMPTY && Sending(data, dlen) != []
    ensures var send := Sending(data, dlen);
      DataIn(d, tag, dlen, data) == d.(inp := Queued([send, Csw(tag, dlen - |send|, 0)], false))
  {
    var send := Sending(data, dlen);
    EmptyPlus(send);
    WriteUnparked(EMPTY, send);
    WriteUnparked(Queued([send], false), Csw(tag, dlen - |send|, 0));
  }

  lemma NoDataInCbw(d: Dev, tag: bytes, dlen: nat, data: bytes)
    requires d.inp == EMPTY && d.outp == EMPTY && Sending(data, dlen) == []
    ensures DataIn(d, tag, dlen, data)
         == d.(inp := Queued([Csw(tag, dlen, 0)], dlen > 0 && d.cbwIn),
               outp := Queued([], dlen > 0 && !d.cbwIn))
  {
    EmptyPlus(Csw(tag, dlen, 0));
    WriteUnparked(StallDataPhase(d, dlen).inp, Csw(tag, dlen, 0));
  }

  // ---- device-to-host commands -----------------------------------------------------------

  /** Nothing but a CSW, on a pipe halted exactly when data was promised. */
  lemma FinishInCswOnly(s1: Sys, dlen: nat, csw: bytes)
    requires ValidDev(s1.dev)
    requires s1.dev.alive && s1.dev.inp == Queued([csw], dlen > 0)
    requires |csw| == 13 && csw[..4] == CSW_SIGNATURE
    ensures var (s', o) := FinishIn(s1, dlen);
      o == Done([], csw) && s' == s1.(seqnum := s'.seqnum, dev := s1.dev.(inp := EMPTY))
  {
    if dlen == 0 {
      CswIsRead(s1, [], csw);
    } else {
      CswIsRead(ClearIn(BulkIn(s1, dlen).0), [], csw);
    }
  }

  lemma FinishInData(s1: Sys, dlen: nat, send: bytes, csw: bytes)
    requires ValidDev(s1.dev)
    requires s1.dev.alive && s1.dev.inp == Queued([send, csw], false)
    requires 0 < |send| <= dlen && |csw| == 13 && csw[..4] == CSW_SIGNATURE
    ensures var (s', o) := FinishIn(s1, dlen);
      o == Done(send, csw) && s' == s1.(seqnum := s'.seqnum, dev := s1.dev.(inp := EMPTY))
  {
    assert [send, csw][1..] == [csw] && [] + [csw] == [csw];
    CswIsRead(BulkIn(s1, dlen).0, send, csw);
  }

  /** A lone CSW while the host expects data: it is taken for data and the command is lost. */
  lemma FinishInMistaken(s1: Sys, dlen: nat, csw: bytes)
    requires ValidDev(s1.dev)
    requires s1.dev.alive && s1.dev.inp == Queued([csw], false) && dlen > 0 && |csw| == 13
    ensures !FinishIn(s1, dlen).1.Done?
  {
    assert [csw][1..] == [] && [] + [csw][1..] == [];
    if dlen < 13 {
      assert [csw[dlen..]] + [] == [csw[dlen..]];
    }
  }

  lemma FinishInNothing(s1: Sys, dlen: nat)
    requires ValidDev(s1.dev)
    requires s1.dev.alive && s1.dev.inp == EMPTY
    ensures !FinishIn(s1, dlen).1.Done?
  {
  }

  ghost predicate Answers(s: Sys, s': Sys, o: Outcome, e: Effect) {
    && Quiescent(s') && s'.dev.units == e.units && s'.tag == s.tag + 1
    && o == Done(e.data, Csw(ToLE(s.tag + 1, 4), e.residue, e.status))
  }

  /** What a CBW of this host does to a device that is ready for one. */
  function Handled(d: Dev, tag: bytes, dlen: nat, directionIn: bool, lun: nat, cdb: bytes): Dev
    requires ValidDev(d) && AllValid(d.units)
  {
    var d1 := d.(cbwIn := directionIn);
    if |cdb| > 16 then d
    else if lun % 16 >= |d.units| then Fail(d1, 0, tag, dlen, SENSE_LUN_NOT_SUPPORTED)
    else Dispatch(d1, lun % 16, tag, dlen, cdb)
  }

  /** The blob parses back to these fields. */
  ghost predicate Wraps(blob: bytes, tag: bytes, dlen: nat, directionIn: bool, lun: nat, cdb: bytes) {
    && (IsCbw(blob) <==> |cdb| <= 16)
    && (|cdb| <= 16 ==>
          && blob[4..8] == tag && FromLE(blob[8..12]) == dlen
          && (blob[12] >= 0x80 <==> directionIn) && blob[13] == lun
          && Slice(blob, 15, 15 + blob[14] % 32) == cdb)
  }

  lemma WrapperIsHandled(d: Dev, blob: bytes, tag: bytes, dlen: nat, directionIn: bool, lun: nat, cdb: bytes)
    requires ValidDev(d) && d.pend.None? && Wraps(blob, tag, dlen, directionIn, lun, cdb)
    requires AllValid(d.units)
    ensures OnOut(d, blob) == Handled(d, tag, dlen, directionIn, lun, cdb)
  {
  }

  /** The state after a CBW was accepted and its reply queued or awaited. */
  lemma InBadLun(s: Sys, s1: Sys, dlen: nat, lun: nat, cdb: bytes)
    requires Quiescent(s) && ValidDev(s1.dev) && lun % 16 >= |s.dev.units|
    requires s1 == s.(tag := s.tag + 1, seqnum := s.seqnum + 1,
        dev := Fail(s.dev.(cbwIn := true), 0, ToLE(s.tag + 1, 4), dlen, SENSE_LUN_NOT_SUPPORTED))
    requires AllValid(s.dev.units)
    ensures var (s', o) := FinishIn(s1, dlen); Answers(s, s', o, Abstract(s.dev.units, lun, cdb, dlen, []))
  {
    var csw := Csw(ToLE(s.tag + 1, 4), dlen, 1);
    RefusedCbw(s.dev.(cbwIn := true), 0, ToLE(s.tag + 1, 4), dlen, SENSE_LUN_NOT_SUPPORTED);
    CswShape(ToLE(s.tag + 1, 4), dlen, 1);
    FinishInCswOnly(s1, dlen, csw);
  }

  lemma InDispatched(s: Sys, s1: Sys, dlen: nat, k: nat, cdb: bytes, action: Action)
    requires Quiescent(s) && AllValid(s.dev.units) && ValidDev(s1.dev)
    requires !action.Crash? && k < |s.dev.units|
    requires action.Await? ==> cdb != [] && LbaCount(cdb).0 + LbaCount(cdb).1 <= s.dev.units[k].numBlocks
    requires s1 == s.(tag := s.tag + 1, seqnum := s.seqnum + 1,
                      dev := Perform(s.dev.(cbwIn := true), k, ToLE(s.tag + 1, 4), dlen, cdb, action))
    ensures var (s', o) := FinishIn(s1, dlen);
      if action.Send? || action.Refuse? || (action.Pass? && dlen == 0)
      then Answers(s, s', o, Enact(s.dev.units, k, cdb, dlen, [], action))
      else !o.Done?
  {
    var tag, d := ToLE(s.tag + 1, 4), s.dev.(cbwIn := true);
    match action {
      case Pass =>
        PassedCbw(d, tag);
        CswShape(tag, 0, 0);
        if dlen == 0 {
          FinishInCswOnly(s1, 0, Csw(tag, 0, 0));
        } else {
          FinishInMistaken(s1, dlen, Csw(tag, 0, 0));
        }
      case Refuse(sense) =>
        RefusedCbw(d, k, tag, dlen, sense);
        CswShape(tag, dlen, 1);
        FinishInCswOnly(s1, dlen, Csw(tag, dlen, 1));
      case Send(data) =>
        InSend(s, s1, dlen, s.dev.units[k := AfterDecide(s.dev.units[k], cdb)], data);
      case Await =>
        FinishInNothing(s1, dlen);
    }
  }

  lemma FinishInSend(s1: Sys, d: Dev, dlen: nat, tag: bytes, data: bytes)
    requires ValidDev(s1.dev)
    requires d.inp == EMPTY && d.outp == EMPTY && d.alive && d.cbwIn && |tag| == 4
    requires s1.dev == DataIn(d, tag, dlen, data)
    ensures var (s', o) := FinishIn(s1, dlen); var send := Sending(data, dlen);
      o == Done(send, Csw(tag, dlen - |send|, 0)) && s' == s1.(seqnum := s'.seqnum, dev := d)
  {
    var send := Sending(data, dlen);
    CswShape(tag, dlen - |send|, 0);
    if send != [] {
      DataInCbw(d, tag, dlen, data);
      FinishInData(s1, dlen, send, Csw(tag, dlen - |send|, 0));
    } else {
      NoDataInCbw(d, tag, dlen, data);
      FinishInCswOnly(s1, dlen, Csw(tag, dlen, 0));
    }
  }

  lemma InSend(s: Sys, s1: Sys, dlen: nat, units: seq<Unit>, data: bytes)
    requires Quiescent(s) && ValidDev(s1.dev)
    requires s1 == s.(tag := s.tag + 1, seqnum := s.seqnum + 1,
                      dev := DataIn(s.dev.(cbwIn := true, units := units), ToLE(s.tag + 1, 4), dlen, data))
    ensures var (s', o) := FinishIn(s1, dlen); var send := Sending(data, dlen);
      Answers(s, s', o, Effect(units, send, dlen - |send|, 0))
  {
    FinishInSend(s1, s.dev.(cbwIn := true, units := units), dlen, ToLE(s.tag + 1, 4), data);
  }

  /** The system once the device has handled the CBW. */
  function Received(s: Sys, dlen: nat, directionIn: bool, lun: nat, cdb: bytes): Sys
    requires ValidDev(s.dev) && AllValid(s.dev.units)
  {
    s.(tag := s.tag + 1, seqnum := s.seqnum + 1,
       dev := Handled(s.dev, ToLE(s.tag + 1, 4), dlen, directionIn, lun, cdb))
  }

  lemma WrapperIsReceived(s: Sys, blob: bytes, dlen: nat, directionIn: bool, lun: nat, cdb: bytes)
    requires Quiescent(s) && AllValid(s.dev.units)
    requires Wraps(blob, ToLE(s.tag + 1, 4), dlen, directionIn, lun, cdb)
    ensures var s1 := Received(s, dlen, directionIn, lun, cdb);
      BulkOut(s.(tag := s.tag + 1), blob) == (s1, if s1.dev.alive then Sent else Closed)
  {
    hide Wraps, OnOut, Handled;
    WrapperIsHandled(s.dev, blob, ToLE(s.tag + 1, 4), dlen, directionIn, lun, cdb);
  }

  lemma CbwIsReceived(s: Sys, cdb: bytes, dlen: nat, directionIn: bool, lun: nat)
    requires Quiescent(s) && CbwFits(s.tag + 1, dlen, lun, cdb) && AllValid(s.dev.units)
    ensures var s1 := Received(s, dlen, directionIn, lun, cdb);
      SendCbw(s, cdb, dlen, directionIn, lun) == (s1, if s1.dev.alive then None else Some(Broken(Closed)))
  {
    hide Cbw, BulkOut, Received;
    CbwParses(s.tag + 1, dlen, directionIn, lun, cdb);
    WrapperIsReceived(s, Cbw(s.tag + 1, dlen, directionIn, lun, cdb), dlen, directionIn, lun, cdb);
  }

  lemma InReceived(s: Sys, s1: Sys, cdb: bytes, dlen: nat, lun: nat)
    requires Quiescent(s) && CbwFits(s.tag + 1, dlen, lun, cdb) && AllValid(s.dev.units)
    requires ValidDev(s1.dev) && s1.dev.alive && s1 == Received(s, dlen, true, lun, cdb)
    ensures var (s', o) := FinishIn(s1, dlen);
      if FitIn(s.dev.units, lun, cdb, dlen)
      then Answers(s, s', o, Abstract(s.dev.units, lun, cdb, dlen, []))
      else !o.Done?
  {
    if |cdb| > 16 {
      FinishInNothing(s1, dlen);
    } else if lun % 16 >= |s.dev.units| {
      InBadLun(s, s1, dlen, lun, cdb);
    } else {
      AwaitMeansWritable(s.dev.units[lun % 16], cdb);
      InDispatched(s, s1, dlen, lun % 16, cdb, Decide(s.dev.units[lun % 16], cdb));
    }
  }

  /** A CBW kills the connection only when its CDB is too short for its opcode. */
  lemma CrashesUnfit(s: Sys, cdb: bytes, dlen: nat, directionIn: bool, lun: nat)
    requires Quiescent(s) && AllValid(s.dev.units)
    requires !Received(s, dlen, directionIn, lun, cdb).dev.alive
    ensures |cdb| <= 16 && lun % 16 < |s.dev.units| && Decide(s.dev.units[lun % 16], cdb).Crash?
  {
  }

  /** command_in from a quiescent system: it is answered, with its own tag, leaving the
      system quiescent and the units as the abstract machine has them, if and only if the
      command fits; an unfit one never completes. */
  lemma CommandInRefines(s: Sys, cdb: bytes, dlen: nat, lun: nat)
    requires Quiescent(s) && CbwFits(s.tag + 1, dlen, lun, cdb) && AllValid(s.dev.units)
    ensures var (s', o) := CommandIn(s, cdb, dlen, lun);
      if FitIn(s.dev.units, lun, cdb, dlen)
      then Answers(s, s', o, Abstract(s.dev.units, lun, cdb, dlen, []))
      else !o.Done?
  {
    CbwIsReceived(s, cdb, dlen, true, lun);
    var s1 := Received(s, dlen, true, lun, cdb);
    if s1.dev.alive {
      InReceived(s, s1, cdb, dlen, lun);
    } else {
      CrashesUnfit(s, cdb, dlen, true, lun);
    }
  }

  // ---- host-to-device commands -----------------------------------------------------------

  /** A CSW alone on the IN pipe, the OUT pipe halted exactly when data was promised. */
  lemma FinishOutRefused(s1: Sys, data: bytes, csw: bytes)
    requires ValidDev(s1.dev) && s1.dev.alive
    requires s1.dev.inp == Queued([csw], false) && s1.dev.outp == Queued([], data != [])
    requires |csw| == 13 && csw[..4] == CSW_SIGNATURE
    ensures var (s', o) := FinishOut(s1, data);
      o == Done([], csw) && s' == s1.(seqnum := s'.seqnum, dev := s1.dev.(inp := EMPTY, outp := EMPTY))
  {
    if data == [] {
      CswIsRead(s1, [], csw);
    } else {
      var s2 := BulkOut(s1, data).0;
      CswIsRead(ClearOut(s2), [], csw);
    }
  }

  /** No write is awaited: a data packet that is no CBW is dropped and the CSW is read. */
  lemma FinishOutDropped(s1: Sys, data: bytes, csw: bytes)
    requires ValidDev(s1.dev) && s1.dev.alive && s1.dev.pend.None? && !IsCbw(data)
    requires s1.dev.inp == Queued([csw], false) && s1.dev.outp == EMPTY
    requires |csw| == 13 && csw[..4] == CSW_SIGNATURE
    ensures var (s', o) := FinishOut(s1, data);
      o == Done([], csw) && s' == s1.(seqnum := s'.seqnum, dev := s1.dev.(inp := EMPTY))
  {
    if data == [] {
      CswIsRead(s1, [], csw);
    } else {
      assert OnOut(s1.dev, data) == s1.dev;
      CswIsRead(BulkOut(s1, data).0, [], csw);
    }
  }

  /** Data is queued in front of the CSW: the host takes it for the CSW. */
  lemma FinishOutMistaken(s1: Sys, data: bytes, send: bytes, csw: bytes)
    requires ValidDev(s1.dev) && s1.dev.alive && s1.dev.pend.None? && !IsCbw(data) && data != []
    requires s1.dev.inp == Queued([send, csw], false) && s1.dev.outp == EMPTY && send != []
    ensures FinishOut(s1, data).0.dev.inp.q != []
  {
    assert OnOut(s1.dev, data) == s1.dev;
    assert [send, csw][1..] == [csw];
  }

  lemma FinishOutStarved(s1: Sys, data: bytes)
    requires ValidDev(s1.dev) && s1.dev.alive && s1.dev.inp == EMPTY && s1.dev.outp == EMPTY
    requires s1.dev.pend.Some? || !IsCbw(data)
    requires s1.dev.pend.Some? ==> data == [] || |s1.dev.pend.value.buf + data| < s1.dev.pend.value.need
    ensures !FinishOut(s1, data).1.Done?
  {
    if data != [] {
      assert OnOut(s1.dev, data).inp == EMPTY;
    }
  }

  /** The awaited write gets all its data in one packet. */
  lemma FinishOutWrites(s1: Sys, data: bytes)
    requires ValidDev(s1.dev) && s1.dev.alive && s1.dev.inp == EMPTY && s1.dev.outp == EMPTY
    requires s1.dev.pend.Some? && s1.dev.pend.value.buf == [] && data != [] && s1.dev.pend.value.need <= |data|
    ensures var p := s1.dev.pend.value;
      Span(p.lba, s1.dev.units[p.lun].blockSize) + p.need <= |s1.dev.units[p.lun].image|
    ensures var (s', o) := FinishOut(s1, data); var p := s1.dev.pend.value;
      && o == Done([], Csw(p.tag, 0, 0))
      && s' == s1.(seqnum := s'.seqnum, dev := s1.dev.(pend := None,
           units := s1.dev.units[p.lun := Store(s1.dev.units[p.lun], p.lba, data[..p.need])]))
  {
    var p := s1.dev.pend.value;
    PendingFits(s1.dev);
    assert [] + data == data;
    CswShape(p.tag, 0, 0);
    EmptyPlus(Csw(p.tag, 0, 0));
    WriteUnparked(EMPTY, Csw(p.tag, 0, 0));
    CswIsRead(BulkOut(s1, data).0, [], Csw(p.tag, 0, 0));
  }

  lemma OutBadLun(s: Sys, s1: Sys, data: bytes, lun: nat, cdb: bytes)
    requires Quiescent(s) && AllValid(s.dev.units) && ValidDev(s1.dev) && lun % 16 >= |s.dev.units|
    requires |cdb| <= 16 && s1 == Received(s, |data|, false, lun, cdb)
    ensures var (s', o) := FinishOut(s1, data); Answers(s, s', o, Abstract(s.dev.units, lun, cdb, |data|, data))
  {
    var tag := ToLE(s.tag + 1, 4);
    RefusedCbw(s.dev.(cbwIn := false), 0, tag, |data|, SENSE_LUN_NOT_SUPPORTED);
    CswShape(tag, |data|, 1);
    FinishOutRefused(s1, data, Csw(tag, |data|, 1));
  }

  /** The opcode has a reply and the host sent data: either the reply is empty, and the
      data phase was stalled, or the reply will be read in place of the CSW. */
  lemma OutSendSomething(s1: Sys, d: Dev, data: bytes, tag: bytes, reply: bytes)
    requires ValidDev(s1.dev) && |tag| == 4 && !IsCbw(data) && data != [] && reply != []
    requires d.inp == EMPTY && d.outp == EMPTY && d.alive && d.pend.None?
    requires s1.dev == DataIn(d, tag, |data|, reply)
    ensures FinishOut(s1, data).0.dev.inp.q != []
  {
    var send := Sending(reply, |data|);
    DataInCbw(d, tag, |data|, reply);
    FinishOutMistaken(s1, data, send, Csw(tag, |data| - |send|, 0));
  }

  lemma OutSendNothing(s1: Sys, d: Dev, data: bytes, tag: bytes, reply: bytes)
    requires ValidDev(s1.dev) && |tag| == 4 && (data == [] || reply == [])
    requires d.inp == EMPTY && d.outp == EMPTY && d.alive && !d.cbwIn
    requires s1.dev == DataIn(d, tag, |data|, reply)
    ensures var (s', o) := FinishOut(s1, data);
      o == Done([], Csw(tag, |data|, 0))
      && s' == s1.(seqnum := s'.seqnum, dev := d)
  {
    NoDataInCbw(d, tag, |data|, reply);
    CswShape(tag, |data|, 0);
    FinishOutRefused(s1, data, Csw(tag, |data|, 0));
  }

  lemma OutSend(s: Sys, s1: Sys, data: bytes, units: seq<Unit>, reply: bytes)
    requires Quiescent(s) && ValidDev(s1.dev)
    requires IsCbw(data) ==> reply == []
    requires s1 == s.(tag := s.tag + 1, seqnum := s.seqnum + 1,
                      dev := DataIn(s.dev.(cbwIn := false, units := units), ToLE(s.tag + 1, 4), |data|, reply))
    ensures var (s', o) := FinishOut(s1, data);
      if data == [] || reply == [] then Answers(s, s', o, Effect(units, [], |data|, 0))
      else s'.dev.inp.q != []
  {
    var tag, d := ToLE(s.tag + 1, 4), s.dev.(cbwIn := false, units := units);
    if data == [] || reply == [] {
      OutSendNothing(s1, d, data, tag, reply);
    } else {
      OutSendSomething(s1, d, data, tag, reply);
    }
  }

  lemma OutAwait(s: Sys, s1: Sys, data: bytes, k: nat, cdb: bytes)
    requires Quiescent(s) && AllValid(s.dev.units) && ValidDev(s1.dev)
    requires k < |s.dev.units| && cdb != []
    requires LbaCount(cdb).0 + LbaCount(cdb).1 <= s.dev.units[k].numBlocks
    requires s1 == s.(tag := s.tag + 1, seqnum := s.seqnum + 1,
                      dev := Perform(s.dev.(cbwIn := false), k, ToLE(s.tag + 1, 4), |data|, cdb, Await))
    ensures var (s', o) := FinishOut(s1, data);
      if data != [] && Span(LbaCount(cdb).1, s.dev.units[k].blockSize) <= |data|
      then Answers(s, s', o, Enact(s.dev.units, k, cdb, |data|, data, Await))
      else !o.Done?
  {
    var p := s1.dev.pend.value;
    if data != [] && p.need <= |data| {
      FinishOutWrites(s1, data);
    } else {
      assert p.buf + data == data;
      FinishOutStarved(s1, data);
    }
  }

  lemma OutDispatched(s: Sys, s1: Sys, data: bytes, k: nat, cdb: bytes, action: Action)
    requires Quiescent(s) && AllValid(s.dev.units) && ValidDev(s1.dev)
    requires IsCbw(data) ==> !TakesNoData(action)
    requires !action.Crash? && k < |s.dev.units|
    requires action.Await? ==> cdb != [] && LbaCount(cdb).0 + LbaCount(cdb).1 <= s.dev.units[k].numBlocks
    requires s1 == s.(tag := s.tag + 1, seqnum := s.seqnum + 1,
                      dev := Perform(s.dev.(cbwIn := false), k, ToLE(s.tag + 1, 4), |data|, cdb, action))
    ensures var (s', o) := FinishOut(s1, data);
      if OutAnswered(s.dev.units[k], cdb, data, action)
      then Answers(s, s', o, Enact(s.dev.units, k, cdb, |data|, data, action))
      else !(o.Done? && Quiescent(s'))
  {
    var tag, d := ToLE(s.tag + 1, 4), s.dev.(cbwIn := false);
    match action {
      case Pass =>
        PassedCbw(d, tag);
        CswShape(tag, 0, 0);
        FinishOutDropped(s1, data, Csw(tag, 0, 0));
      case Refuse(sense) =>
        RefusedCbw(d, k, tag, |data|, sense);
        CswShape(tag, |data|, 1);
        FinishOutRefused(s1, data, Csw(tag, |data|, 1));
      case Send(reply) =>
        OutSend(s, s1, data, s.dev.units[k := AfterDecide(s.dev.units[k], cdb)], reply);
      case Await => OutAwait(s, s1, data, k, cdb);
    }
  }

  lemma OutReceived(s: Sys, s1: Sys, cdb: bytes, data: bytes, lun: nat)
    requires Quiescent(s) && CbwFits(s.tag + 1, |data|, lun, cdb) && AllValid(s.dev.units)
    requires !Misread(s.dev.units, lun, cdb, data)
    requires ValidDev(s1.dev) && s1.dev.alive && s1 == Received(s, |data|, false, lun, cdb)
    ensures var (s', o) := FinishOut(s1, data);
      if FitOut(s.dev.units, lun, cdb, data)
      then Answers(s, s', o, Abstract(s.dev.units, lun, cdb, |data|, data))
      else !(o.Done? && Quiescent(s'))
  {
    if |cdb| > 16 {
      FinishOutStarved(s1, data);
    } else if lun % 16 >= |s.dev.units| {
      OutBadLun(s, s1, data, lun, cdb);
    } else {
      AwaitMeansWritable(s.dev.units[lun % 16], cdb);
      OutDispatched(s, s1, data, lun % 16, cdb, Decide(s.dev.units[lun % 16], cdb));
    }
  }

  /** command_out from a quiescent system, its data not misread as a CBW: it is answered
      with its own tag, leaving the system quiescent and the units as the abstract machine
      has them, if and only if the command fits. */
  lemma CommandOutRefines(s: Sys, cdb: bytes, data: bytes, lun: nat)
    requires Quiescent(s) && CbwFits(s.tag + 1, |data|, lun, cdb) && AllValid(s.dev.units)
    requires !Misread(s.dev.units, lun, cdb, data)
    ensures var (s', o) := CommandOut(s, cdb, data, lun);
      if FitOut(s.dev.units, lun, cdb, data)
      then Answers(s, s', o, Abstract(s.dev.units, lun, cdb, |data|, data))
      else !(o.Done? && Quiescent(s'))
  {
    CbwIsReceived(s, cdb, |data|, false, lun);
    var s1 := Received(s, |data|, false, lun, cdb);
    if s1.dev.alive {
      OutReceived(s, s1, cdb, data, lun);
    } else {
      CrashesUnfit(s, cdb, |data|, false, lun);
    }
  }
}
