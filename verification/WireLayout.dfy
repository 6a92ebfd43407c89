/** The USB/IP URB phase at its byte offsets (usbip/protocol.py, the ">IIIII" and ">iiiii" of read_cmd, write_ret and
    write_ret_unlink): what stands where in every header, told apart from the encoders and parsers of WireFormat. */
module WireLayout {
  import opened Bytes
  import opened WireFormat

  /** Four bytes, most significant first. */
  function BE32(b: bytes, at: nat): nat
    requires at + 4 <= |b|
  {
    16777216 * At(b, at) + 65536 * At(b, at + 1) + 256 * At(b, at + 2) + At(b, at + 3)
  }

  /** The same as a signed number. */
  function Signed32(b: bytes, at: nat): int
    requires at + 4 <= |b|
  {
    if BE32(b, at) >= 0x8000_0000 then BE32(b, at) - 0x1_0000_0000 else BE32(b, at)
  }

  lemma WordIsBE32(b: bytes, i: nat)
    requires 4 * i + 4 <= |b|
    ensures WordAt(b, i) == BE32(b, 4 * i) && Signed(WordAt(b, i)) == Signed32(b, 4 * i)
  {
    hide FromBE;
    FromBE4(b[4 * i..4 * i + 4]);
  }

  // ---- commands -------------------------------------------------------------------------

  /** Where a command's fields are read from. */
  lemma CommandFields(hdr: bytes)
    requires |hdr| == 48
    ensures var (u, npkts) := ParseHeader(hdr);
            && u.command == BE32(hdr, 0) && u.seqnum == BE32(hdr, 4) && u.devid == BE32(hdr, 8)
            && u.direction == BE32(hdr, 12) && u.ep == BE32(hdr, 16) && u.flags == BE32(hdr, 20)
            && u.length == Signed32(hdr, 24) && npkts == Signed32(hdr, 32) && u.interval == Signed32(hdr, 36)
            && u.setup == hdr[40..48] && u.iso == None
  {
    hide WordAt, Signed, BE32, Signed32;
    WordIsBE32(hdr, 0);
    WordIsBE32(hdr, 1);
    WordIsBE32(hdr, 2);
    WordIsBE32(hdr, 3);
    WordIsBE32(hdr, 4);
    WordIsBE32(hdr, 5);
    WordIsBE32(hdr, 6);
    WordIsBE32(hdr, 8);
    WordIsBE32(hdr, 9);
  }

  /** Where a packet descriptor's are. */
  lemma PacketFields(b: bytes)
    requires |b| >= 16
    ensures UnpackIso(b) == IsoPacket(BE32(b, 0), BE32(b, 4), BE32(b, 8), BE32(b, 12))
  {
    hide WordAt, BE32;
    WordIsBE32(b, 0);
    WordIsBE32(b, 1);
    WordIsBE32(b, 2);
    WordIsBE32(b, 3);
  }

  /** What a device makes of a stream that ends early: no header, no command; no payload, an empty one; no packet
      descriptors, an error. */
  lemma CutOffCommands(stream: bytes, isIso: (nat, nat) -> bool)
    ensures |stream| < 48 ==> ReadCmd(stream, isIso) == Closed
    ensures |stream| >= 48 ==>
              var dir, ep, length, npkts :=
                BE32(stream, 12), BE32(stream, 16), Signed32(stream, 24), Signed32(stream, 32);
              var iso := BE32(stream, 0) == 1 && npkts > 0 && isIso(ep, dir);
              var payload := if dir == 0 && length > 0 then length else 0;
              var need := if iso then 16 * npkts else 0;
              match ReadCmd(stream, isIso)
              case Closed => false
              case Broken => iso && |stream| < 48 + payload + need
              case Got(u, rest) =>
                && (iso ==> |stream| >= 48 + payload + need) && (u.iso.Some? <==> iso)
                && (|stream| >= 48 + payload ==> u.data == stream[48..48 + payload])
                && (|stream| < 48 + payload ==> u.data == [] && rest == [])
                && (|stream| >= 48 + payload + need ==> rest == stream[48 + payload + need..])
  {
    hide BE32, Signed32, DecodeIso, ParseHeader;
    if |stream| >= 48 {
      var hdr := stream[..48];
      CommandFields(hdr);
      SameField(stream, 0);
      SameField(stream, 12);
      SameField(stream, 16);
      SameField(stream, 24);
      SameField(stream, 32);
      var length := Signed32(stream, 24);
      if length > 0 && |stream| >= 48 + length {
        assert stream[48..][..length] == stream[48..48 + length] && stream[48..][length..] == stream[48 + length..];
      }
      TailOfTail(stream);
    }
  }

  lemma SameField(stream: bytes, at: nat)
    requires at + 4 <= 48 <= |stream|
    ensures BE32(stream[..48], at) == BE32(stream, at) && Signed32(stream[..48], at) == Signed32(stream, at)
  {
  }

  lemma TailOfTail(stream: bytes)
    ensures forall a: nat, b: nat :: a + b <= |stream| ==> stream[a..][b..] == stream[a + b..]
  {
  }

  // ---- replies --------------------------------------------------------------------------

  function Actuals(pkts: seq<IsoPacket>): nat {
    if pkts == [] then 0 else Actuals(pkts[..|pkts| - 1]) + pkts[|pkts| - 1].actual
  }

  lemma {:induction false} ActualsCons(pkts: seq<IsoPacket>)
    ensures ActualSum(pkts) == Actuals(pkts)
    decreases |pkts|
  {
    if |pkts| == 1 {
      assert pkts[1..] == [] && pkts[..0] == [];
    } else if |pkts| > 1 {
      var mid := pkts[1..|pkts| - 1];
      ActualsCons(pkts[1..]);
      ActualsCons(pkts[..|pkts| - 1]);
      ActualsCons(mid);
      assert pkts[..|pkts| - 1][1..] == mid && pkts[1..][..|pkts| - 2] == mid;
    }
  }

  /** What a reply says was transferred. */
  function Transferred(d: Done): int {
    match d.iso
    case None => d.actual
    case Some(pkts) => Actuals(pkts)
  }

  /** The header of every reply, ordinary or isochronous. */
  ghost predicate ReplyHeading(b: bytes, d: Done) {
    && |b| >= 48
    && BE32(b, 0) == 3 && BE32(b, 4) == d.seqnum && BE32(b, 8) == d.devid
    && BE32(b, 12) == d.direction && BE32(b, 16) == d.ep
    && Signed32(b, 20) == d.status && Signed32(b, 24) == Transferred(d) && BE32(b, 28) == 0
    && Signed32(b, 32) == (match d.iso case None => 0 case Some(pkts) => |pkts|)
    && BE32(b, 36) == 0 && BE32(b, 40) == 0 && BE32(b, 44) == 0
  }

  lemma WordAtHeader(ws: seq<nat>, tail: bytes, i: nat)
    requires i < |ws| && ws[i] < WORD
    ensures 4 * i + 4 <= |Words(ws) + tail| && BE32(Words(ws) + tail, 4 * i) == ws[i]
  {
    hide Words, BE32, WordAt;
    WordAtWords(ws, tail, i);
    WordIsBE32(Words(ws) + tail, i);
  }

  lemma SignedWord(v: int)
    requires Is32(v)
    ensures Unsigned(v) < WORD
    ensures (if Unsigned(v) >= 0x8000_0000 then Unsigned(v) - 0x1_0000_0000 else Unsigned(v)) == v
  {
  }

  /** Every reply starts with the words 3, seqnum, devid, direction and endpoint, then status and length. */
  lemma ReplyStarts(d: Done, rest: bytes)
    requires ReplyFits(d)
    ensures ReplyHeading(WriteRet(d) + rest, d)
  {
    hide Words, BE32, ReplyData, IsoBytes, Actuals, ActualSum, Unsigned;
    var ws, tail := ReplyWords(d), ReplyData(d) + IsoBytes(d.iso) + rest;
    Assoc(Words(ws), ReplyData(d) + IsoBytes(d.iso), rest);
    if d.iso.Some? {
      ActualsCons(d.iso.value);
    }
    SignedWord(d.status);
    SignedWord(ReplyActual(d));
    SignedWord(ReplyCount(d));
    WordAtHeader(ws, tail, 0);
    WordAtHeader(ws, tail, 1);
    WordAtHeader(ws, tail, 2);
    WordAtHeader(ws, tail, 3);
    WordAtHeader(ws, tail, 4);
    WordAtHeader(ws, tail, 5);
    WordAtHeader(ws, tail, 6);
    WordAtHeader(ws, tail, 7);
    WordAtHeader(ws, tail, 8);
    WordAtHeader(ws, tail, 9);
    WordAtHeader(ws, tail, 10);
    WordAtHeader(ws, tail, 11);
  }

  /** How long a reply is, by its own header: 48 bytes, then an IN transfer's data, then the packet descriptors. */
  function ReplyLength(b: bytes): nat
    requires |b| >= 48
  {
    48 + (if BE32(b, 12) == 1 && Signed32(b, 24) > 0 then Signed32(b, 24) else 0)
    + (if Signed32(b, 32) > 0 then 16 * Signed32(b, 32) else 0)
  }

  lemma ReplyEnds(d: Done, rest: bytes)
    requires ReplyFits(d)
    ensures |WriteRet(d) + rest| >= 48 && ReplyLength(WriteRet(d) + rest) == |WriteRet(d)|
  {
    hide Words, BE32, Signed32, EncodeIso, Actuals, ActualSum;
    ReplyStarts(d, rest);
    if d.iso.Some? {
      ActualsCons(d.iso.value);
    }
  }

  // ---- what the host reads ----------------------------------------------------------------

  /** What the device sends: a completed URB, or the acknowledgement of an unlink. */
  datatype Message = Ret(done: Done) | Ack(request: Urb)

  predicate Sendable(m: Message) {
    match m
    case Ret(d) => ReplyFits(d)
    case Ack(u) => u.seqnum < WORD && u.devid < WORD && u.direction < WORD && u.ep < WORD
  }

  function MessageBytes(m: Message): bytes
    requires Sendable(m)
  {
    match m
    case Ret(d) => WriteRet(d)
    case Ack(u) => WriteRetUnlink(u)
  }

  function AllBytes(ms: seq<Message>): bytes
    requires forall i :: 0 <= i < |ms| ==> Sendable(ms[i])
  {
    if ms == [] then [] else MessageBytes(ms[0]) + AllBytes(ms[1..])
  }

  /** The stream cut into messages by their headers: command and seqnum of each. */
  function Heads(stream: bytes): seq<(nat, nat)>
    decreases |stream|
  {
    if |stream| < 48 then []
    else
      var n := if BE32(stream, 0) == 3 then ReplyLength(stream) else 48;
      [(BE32(stream, 0), BE32(stream, 4))] + Heads(if n <= |stream| then stream[n..] else [])
  }

  function HeadOf(m: Message): (nat, nat) {
    match m
    case Ret(d) => (3, d.seqnum)
    case Ack(u) => (4, u.seqnum)
  }

  function HeadsOf(ms: seq<Message>): seq<(nat, nat)> {
    if ms == [] then [] else [HeadOf(ms[0])] + HeadsOf(ms[1..])
  }

  lemma AckStarts(u: Urb, rest: bytes)
    requires Sendable(Ack(u))
    ensures var b := WriteRetUnlink(u) + rest;
            && |WriteRetUnlink(u)| == 48
            && BE32(b, 0) == 4 && BE32(b, 4) == u.seqnum && BE32(b, 8) == u.devid
            && BE32(b, 12) == u.direction && BE32(b, 16) == u.ep
            && BE32(b, 20) == 0 && BE32(b, 24) == 0 && BE32(b, 28) == 0 && BE32(b, 32) == 0
            && BE32(b, 36) == 0 && BE32(b, 40) == 0 && BE32(b, 44) == 0
  {
    hide Words, BE32;
    var ws := UnlinkWords(u);
    WordAtHeader(ws, rest, 0);
    WordAtHeader(ws, rest, 1);
    WordAtHeader(ws, rest, 2);
    WordAtHeader(ws, rest, 3);
    WordAtHeader(ws, rest, 4);
    WordAtHeader(ws, rest, 5);
    WordAtHeader(ws, rest, 6);
    WordAtHeader(ws, rest, 7);
    WordAtHeader(ws, rest, 8);
    WordAtHeader(ws, rest, 9);
    WordAtHeader(ws, rest, 10);
    WordAtHeader(ws, rest, 11);
  }

  lemma HeadsCons(m: Message, rest: bytes)
    requires Sendable(m)
    ensures Heads(MessageBytes(m) + rest) == [HeadOf(m)] + Heads(rest)
  {
    hide BE32, Words, ReplyLength, Signed32, ReplyData, IsoBytes;
    var stream := MessageBytes(m) + rest;
    match m {
      case Ret(d) =>
        ReplyStarts(d, rest);
        ReplyEnds(d, rest);
        assert stream[|WriteRet(d)|..] == rest;
      case Ack(u) =>
        AckStarts(u, rest);
        assert stream[48..] == rest;
    }
  }

  /** A stream of replies and acknowledgements is cut into exactly these, each with its own seqnum, in order. */
  lemma {:induction false} StreamHeads(ms: seq<Message>)
    requires forall i :: 0 <= i < |ms| ==> Sendable(ms[i])
    ensures Heads(AllBytes(ms)) == HeadsOf(ms)
  {
    hide MessageBytes, HeadOf;
    if ms == [] {
      NoHeads();
    } else {
      HeadsCons(ms[0], AllBytes(ms[1..]));
      StreamHeads(ms[1..]);
    }
  }

  lemma NoHeads()
    ensures Heads([]) == []
  {
  }

  // ---- replies a host cannot read -----------------------------------------------------------

  /** A host without a whole header is told it was disconnected, and only then. */
  lemma CutOffReplies(stream: bytes, direction: nat, asked: seq<IsoPacket>, length: int)
    ensures ReadReply(stream, direction).Disconnected? <==> |stream| < 48
    ensures ReadIsoReply(stream, direction, asked, length).Disconnected? <==> |stream| < 48
  {
    hide WordAt, DecodeIso, Scatter;
  }
}
