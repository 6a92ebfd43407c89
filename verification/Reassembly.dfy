/** OUT transfers put back together from packets: Bluetooth ACL PDUs and MTP data containers. */
module AclReassembly {
  import opened Bytes

  const ACL_HEADER: nat := 4

  function PduLength(buf: bytes): nat
    requires |buf| >= ACL_HEADER
  {
    ACL_HEADER + FromLE(buf[2..4])
  }

  /** The buffer starts with a whole PDU. */
  predicate Whole(buf: bytes) {
    |buf| >= ACL_HEADER && |buf| >= PduLength(buf)
  }

  /** The PDUs at the front of a buffer, and what follows the last of them. */
  function Pdus(buf: bytes): seq<bytes>
    decreases |buf|
  {
    if Whole(buf) then [buf[..PduLength(buf)]] + Pdus(buf[PduLength(buf)..]) else []
  }

  function Rest(buf: bytes): bytes
    decreases |buf|
  {
    if Whole(buf) then Rest(buf[PduLength(buf)..]) else buf
  }

  /** A whole PDU in front is cut off and nothing else changes. */
  lemma CutOne(pdu: bytes, tail: bytes)
    requires |pdu| >= ACL_HEADER && |pdu| == PduLength(pdu)
    ensures Pdus(pdu + tail) == [pdu] + Pdus(tail)
    ensures Rest(pdu + tail) == Rest(tail)
  {
    var buf := pdu + tail;
    assert buf[2..4] == pdu[2..4];
    assert buf[..|pdu|] == pdu && buf[|pdu|..] == tail;
  }

  lemma {:induction false} CutAppend(a: bytes, b: bytes)
    ensures Pdus(a + b) == Pdus(a) + Pdus(Rest(a) + b)
    ensures Rest(a + b) == Rest(Rest(a) + b)
    decreases |a|
  {
    if Whole(a) {
      var n := PduLength(a);
      var pdu, tail := a[..n], a[n..];
      assert pdu[2..4] == a[2..4];
      CutAppend(tail, b);
      assert a + b == pdu + (tail + b);
      CutOne(pdu, tail + b);
      Assoc([pdu], Pdus(tail), Pdus(Rest(tail) + b));
    } else {
      assert [] + Pdus(a + b) == Pdus(a + b);
    }
  }

  lemma CutStep(buf: bytes)
    ensures Whole(buf) ==> Pdus(buf) == [buf[..PduLength(buf)]] + Pdus(buf[PduLength(buf)..])
    ensures Whole(buf) ==> Rest(buf) == Rest(buf[PduLength(buf)..])
    ensures !Whole(buf) ==> Pdus(buf) == [] && Rest(buf) == buf
  {
  }

  lemma FlattenCons(x: bytes, ss: seq<bytes>)
    ensures Flatten([x] + ss) == x + Flatten(ss)
  {
    assert ([x] + ss)[1..] == ss;
  }

  /** Nothing is lost or reordered: the PDUs and the remainder are the stream. */
  lemma {:induction false} CutConserves(buf: bytes)
    ensures Flatten(Pdus(buf)) + Rest(buf) == buf
    ensures !Whole(Rest(buf))
    decreases |buf|
  {
    hide Pdus, Rest;
    CutStep(buf);
    if Whole(buf) {
      var n := PduLength(buf);
      var tail := buf[n..];
      CutConserves(tail);
      FlattenCons(buf[..n], Pdus(tail));
      Assoc(buf[..n], Flatten(Pdus(tail)), Rest(tail));
    } else {
      assert [] + buf == buf;
    }
  }

  /** A stream made of whole PDUs and an unfinished tail is cut back into exactly those. */
  lemma {:induction false} CutInvertsJoin(pdus: seq<bytes>, tail: bytes)
    requires forall i :: 0 <= i < |pdus| ==> |pdus[i]| >= ACL_HEADER && |pdus[i]| == PduLength(pdus[i])
    requires !Whole(tail)
    ensures Pdus(Flatten(pdus) + tail) == pdus
    ensures Rest(Flatten(pdus) + tail) == tail
  {
    if pdus == [] {
      assert [] + tail == tail;
    } else {
      CutInvertsJoin(pdus[1..], tail);
      Assoc(pdus[0], Flatten(pdus[1..]), tail);
      CutOne(pdus[0], Flatten(pdus[1..]) + tail);
    }
  }

  /** Every PDU handed up is as long as its header says: four bytes and the number in its bytes 2 and 3, least
      significant first. What is held back is shorter than its own. */
  lemma {:induction false} PdusAreFramed(buf: bytes)
    ensures forall i :: 0 <= i < |Pdus(buf)| ==>
              |Pdus(buf)[i]| >= 4 && |Pdus(buf)[i]| == 4 + At(Pdus(buf)[i], 2) + 256 * At(Pdus(buf)[i], 3)
    ensures |Rest(buf)| >= 4 ==> |Rest(buf)| < 4 + At(Rest(buf), 2) + 256 * At(Rest(buf), 3)
    decreases |buf|
  {
    hide Pdus, Rest, FromLE;
    CutStep(buf);
    if |buf| >= 4 {
      FromLE2(buf[2..4]);
    }
    if Whole(buf) {
      PdusAreFramed(buf[PduLength(buf)..]);
    }
  }

  /** One transfer per element: the PDUs handed up, and the bytes still held. */
  function Delivered(held: bytes, packets: seq<bytes>): seq<bytes>
    decreases |packets|
  {
    if packets == [] then []
    else Pdus(held + packets[0]) + Delivered(Rest(held + packets[0]), packets[1..])
  }

  function Held(held: bytes, packets: seq<bytes>): bytes
    decreases |packets|
  {
    if packets == [] then held else Held(Rest(held + packets[0]), packets[1..])
  }

  /** The packet boundaries do not matter: only the bytes do. */
  lemma {:induction false} AnySplit(held: bytes, packets: seq<bytes>)
    requires !Whole(held)
    ensures Delivered(held, packets) == Pdus(held + Flatten(packets))
    ensures Held(held, packets) == Rest(held + Flatten(packets))
    decreases |packets|
  {
    if packets == [] {
      assert held + [] == held;
    } else {
      var next := held + packets[0];
      CutConserves(next);
      AnySplit(Rest(next), packets[1..]);
      CutAppend(next, Flatten(packets[1..]));
      Assoc(held, packets[0], Flatten(packets[1..]));
    }
  }

  class BluetoothInterface {
    var aclRx: bytes
    /** PDUs handed to the controller, oldest first. */
    var onAcl: seq<bytes>
    /** Bytes received since the last reset, and the PDUs handed up before it. */
    ghost var stream: bytes
    ghost var before: seq<bytes>

    ghost predicate Valid()
      reads this
    {
      && aclRx == Rest(stream)
      && onAcl == before + Pdus(stream)
      && !Whole(aclRx)
    }

    constructor ()
      ensures Valid() && stream == [] && onAcl == []
    {
      aclRx, onAcl, stream, before := [], [], [], [];
    }

    method OnOut(data: bytes)
      requires Valid()
      modifies this
      ensures Valid() && stream == old(stream) + data && before == old(before)
      ensures onAcl == old(onAcl) + Pdus(old(aclRx) + data)
      ensures aclRx == Rest(old(aclRx) + data)
    {
      aclRx := aclRx + data;
      ghost var whole := aclRx;
      while |aclRx| >= ACL_HEADER
        invariant stream == old(stream) && before == old(before)
        invariant onAcl + Pdus(aclRx) == old(onAcl) + Pdus(whole)
        invariant Rest(aclRx) == Rest(whole)
        decreases |aclRx|
      {
        var plen := FromLE(aclRx[2..4]);
        if |aclRx| < ACL_HEADER + plen {
          break;
        }
        var pdu := aclRx[..ACL_HEADER + plen];
        ghost var tail := Pdus(aclRx[ACL_HEADER + plen..]);
        Assoc(onAcl, [pdu], tail);
        aclRx := aclRx[ACL_HEADER + plen..];
        onAcl := onAcl + [pdu];
      }
      assert onAcl + [] == onAcl;
      CutAppend(stream, data);
      Assoc(before, Pdus(stream), Pdus(Rest(stream) + data));
      stream := stream + data;
    }

    method OnReset()
      requires Valid()
      modifies this
      ensures Valid() && stream == [] && aclRx == [] && onAcl == old(onAcl)
    {
      aclRx := [];
      stream, before := [], onAcl;
      assert onAcl + [] == onAcl;
    }
  }
}

/** The MTP data-out phase: a container arrives in any number of transfers and completes once. */
module MtpDataPhase {
  import opened Bytes

  const CONTAINER_HEADER: nat := 12

  datatype Rx = Rx(code: nat, txid: nat, params: seq<nat>, buf: bytes, need: Option<nat>)

  /** What an OUT transfer sets off: a command dispatched, or a data phase completed. */
  datatype Event = Command(data: bytes) | Complete(rx: Rx, payload: bytes)

  function Begin(code: nat, txid: nat, params: seq<nat>): Rx {
    Rx(code, txid, params, [], None)
  }

  /** The phase once `got` has arrived. */
  function Pending(begun: Rx, got: bytes): Rx {
    begun.(buf := got, need := if |got| >= CONTAINER_HEADER then Some(FromLE(got[..4])) else None)
  }

  /** One transfer. */
  function OnOut(rx: Option<Rx>, data: bytes): (Option<Rx>, seq<Event>) {
    match rx
    case None => (None, if |data| < CONTAINER_HEADER then [] else [Command(data)])
    case Some(was) =>
      var buf := was.buf + data;
      var need := if was.need == None && |buf| >= CONTAINER_HEADER then Some(FromLE(buf[..4])) else was.need;
      var now := was.(buf := buf, need := need);
      if need.Some? && |buf| >= need.value then
        (None, [Complete(now, Slice(buf, CONTAINER_HEADER, need.value))])
      else
        (Some(now), [])
  }

  function RunRx(rx: Option<Rx>, packets: seq<bytes>): Option<Rx>
    decreases |packets|
  {
    if packets == [] then rx else RunRx(OnOut(rx, packets[0]).0, packets[1..])
  }

  function RunEvents(rx: Option<Rx>, packets: seq<bytes>): seq<Event>
    decreases |packets|
  {
    if packets == [] then [] else OnOut(rx, packets[0]).1 + RunEvents(OnOut(rx, packets[0]).0, packets[1..])
  }

  /** A container that declares its own length. */
  predicate Container(c: bytes) {
    |c| >= CONTAINER_HEADER && FromLE(c[..4]) == |c|
  }

  lemma {:induction false} EmptyTransfersDoNothing(packets: seq<bytes>)
    requires Flatten(packets) == []
    ensures RunRx(None, packets) == None && RunEvents(None, packets) == []
    decreases |packets|
  {
    if packets != [] {
      assert |packets[0]| <= |Flatten(packets)|;
      EmptyTransfersDoNothing(packets[1..]);
    }
  }

  /** The transfers that can be commands: those with a whole header. */
  function WithHeader(packets: seq<bytes>): seq<Event> {
    if packets == [] then []
    else
      (if |packets[0]| >= 12 then [Command(packets[0])] else []) + WithHeader(packets[1..])
  }

  /** Outside a data phase every transfer with a whole header is a command, even one with nothing after it; shorter
      ones are ignored. */
  lemma {:induction false} CommandsAreTaken(packets: seq<bytes>)
    ensures RunRx(None, packets) == None && RunEvents(None, packets) == WithHeader(packets)
    decreases |packets|
  {
    if packets != [] {
      CommandsAreTaken(packets[1..]);
    }
  }

  /** One more transfer of a container: either still pending, or complete with the whole payload. */
  lemma OneTransfer(begun: Rx, got: bytes, data: bytes, later: bytes)
    requires Container(got + data + later) && |got| < |got + data + later|
    ensures var rx := Some(Pending(begun, got));
            if later == [] then
              OnOut(rx, data) == (None, [Complete(Pending(begun, got + data), (got + data)[CONTAINER_HEADER..])])
            else
              OnOut(rx, data) == (Some(Pending(begun, got + data)), [])
  {
    var c := got + data + later;
    var buf := got + data;
    if |got| >= CONTAINER_HEADER {
      assert got[..4] == c[..4];
    }
    if |buf| >= CONTAINER_HEADER {
      assert buf[..4] == c[..4];
    }
    if later == [] {
      assert buf == c;
      assert buf[CONTAINER_HEADER..|buf|] == buf[CONTAINER_HEADER..];
    }
  }

  /**
   * However a container is split, nothing happens until its last byte and then it completes once,
   * with everything after the header.
   */
  lemma {:induction false} CompletesOnce(begun: Rx, got: bytes, packets: seq<bytes>, later: bytes)
    requires Container(got + Flatten(packets) + later)
    requires |got| < |got + Flatten(packets) + later|
    ensures var rx := Some(Pending(begun, got));
            var all := got + Flatten(packets);
            if later == [] then
              && RunRx(rx, packets) == None
              && RunEvents(rx, packets) == [Complete(Pending(begun, all), all[CONTAINER_HEADER..])]
            else
              && RunRx(rx, packets) == Some(Pending(begun, all))
              && RunEvents(rx, packets) == []
    decreases |packets|
  {
    if packets == [] {
      assert got + [] == got;
    } else {
      var tail := Flatten(packets[1..]);
      Assoc(got, packets[0], tail);
      Assoc(got + packets[0], tail, later);
      OneTransfer(begun, got, packets[0], tail + later);
      if tail + later == [] {
        EmptyTransfersDoNothing(packets[1..]);
        assert got + packets[0] + [] == got + packets[0];
      } else {
        CompletesOnce(begun, got + packets[0], packets[1..], later);
        assert [] + RunEvents(Some(Pending(begun, got + packets[0])), packets[1..])
            == RunEvents(Some(Pending(begun, got + packets[0])), packets[1..]);
      }
    }
  }

  /** A completed phase hands up the operation, transaction and parameters it was begun for, with all of its data,
      however the container was split. */
  lemma CompletesItsRequest(code: nat, txid: nat, params: seq<nat>, packets: seq<bytes>)
    requires Container(Flatten(packets))
    ensures var events := RunEvents(Some(Begin(code, txid, params)), packets);
            && |events| == 1 && events[0].Complete?
            && events[0].rx.code == code && events[0].rx.txid == txid && events[0].rx.params == params
            && events[0].payload == Flatten(packets)[12..]
  {
    var begun := Begin(code, txid, params);
    assert [] + Flatten(packets) + [] == Flatten(packets) && [] + Flatten(packets) == Flatten(packets);
    assert Pending(begun, []) == begun;
    CompletesOnce(begun, [], packets, []);
  }

  class Receiver {
    var rx: Option<Rx>
    var events: seq<Event>

    constructor ()
      ensures rx == None && events == []
    {
      rx, events := None, [];
    }

    method BeginRx(code: nat, txid: nat, params: seq<nat>)
      modifies this
      ensures rx == Some(Pending(Begin(code, txid, params), [])) && events == old(events)
    {
      rx := Some(Rx(code, txid, params, [], None));
    }

    method Receive(data: bytes)
      modifies this
      ensures rx == OnOut(old(rx), data).0
      ensures events == old(events) + OnOut(old(rx), data).1
    {
      if rx == None {
        if |data| >= CONTAINER_HEADER {
          events := events + [Command(data)];
        }
        return;
      }
      var now := rx.value;
      now := now.(buf := now.buf + data);
      if now.need == None && |now.buf| >= CONTAINER_HEADER {
        now := now.(need := Some(FromLE(now.buf[..4])));
      }
      if now.need.Some? && |now.buf| >= now.need.value {
        rx := None;
        events := events + [Complete(now, Slice(now.buf, CONTAINER_HEADER, now.need.value))];
      } else {
        rx := Some(now);
      }
    }
  }
}
